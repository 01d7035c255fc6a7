/** The SSD1306 display: run-length encoded images, the frame buffer, the SPI driver, and the simulated part. */
module Ssd1306 {
  import opened Widths

  type byte = uint8

  const PAGES := 8
  const COLUMNS := 128
  const BYTES := 1024

  // ---- Run-length encoding ----

  /** A count byte of zero stands for 256, because the counter is decremented before it is tested again. */
  function RunLength(count: byte): (n: nat)
    ensures 1 <= n <= 256
  {
    if count == 0 then 256 else count as nat
  }

  function Repeat(b: byte, n: nat): (s: seq<byte>)
    ensures |s| == n
  {
    if n == 0 then [] else [b] + Repeat(b, n - 1)
  }

  /** What an image stands for: two equal bytes and a count are a run, any other byte is itself. An image
      ends where the next byte to look at is missing. */
  function Expand(image: seq<byte>): (pixels: seq<byte>)
    decreases |image|
  {
    if |image| < 2 then []
    else if image[0] != image[1] then [image[0]] + Expand(image[1..])
    else if |image| < 3 then []
    else Repeat(image[0], RunLength(image[2])) + Expand(image[3..])
  }

  // The decoder between two pixels: the current byte, how many of it are still to come, and the pointer.
  datatype Decoder = Decoder(b: byte, count: byte, next: nat)

  /** There is enough of the image to go on. */
  predicate Readable(image: seq<byte>, d: Decoder) {
    && d.next <= |image|
    && (d.count == 0 ==> d.next + 1 < |image| && (image[d.next] == image[d.next + 1] ==> d.next + 2 < |image|))
  }

  /** One pixel: a new run first when the old one is used up; the count wraps from 0 to 255. */
  function Pull(image: seq<byte>, d: Decoder): (e: Decoder)
    requires Readable(image, d)
    ensures e.next <= |image|
  {
    if d.count != 0 then d.(count := d.count - 1)
    else if image[d.next] == image[d.next + 1] then
      var n := image[d.next + 2];
      Decoder(image[d.next], if n == 0 then 255 else n - 1, d.next + 3)
    else Decoder(image[d.next], 0, d.next + 1)
  }

  /** The pixels done, the rest of the run, and what the rest of the image stands for make the picture. */
  ghost predicate Progress(image: seq<byte>, done: seq<byte>, d: Decoder) {
    d.next <= |image| && done + Repeat(d.b, d.count as nat) + Expand(image[d.next..]) == Expand(image)
  }

  lemma PullKeeps(image: seq<byte>, done: seq<byte>, d: Decoder)
    requires Progress(image, done, d) && |done| < |Expand(image)|
    ensures Readable(image, d)
    ensures var e := Pull(image, d); Progress(image, done + [e.b], e)
  {
    hide Expand, Repeat;
    if d.count != 0 {
      RunGoesOn(done, d.b, d.count as nat, Expand(image[d.next..]));
    } else {
      NewRun(image, done, d);
    }
  }

  lemma RunGoesOn(done: seq<byte>, b: byte, n: nat, rest: seq<byte>)
    requires n > 0
    ensures done + Repeat(b, n) + rest == done + [b] + Repeat(b, n - 1) + rest
  {
    assert Repeat(b, n) == [b] + Repeat(b, n - 1);
  }

  lemma NewRun(image: seq<byte>, done: seq<byte>, d: Decoder)
    requires Progress(image, done, d) && |done| < |Expand(image)| && d.count == 0
    ensures Readable(image, d)
    ensures var e := Pull(image, d); Progress(image, done + [e.b], e)
  {
    var tail := image[d.next..];
    var rest := Expand(tail);
    assert done + Repeat(d.b, 0) == done;
    assert rest != [];
    var e := Pull(image, d);
    if tail[0] == tail[1] {
      var n := RunLength(tail[2]);
      assert tail[3..] == image[e.next..] && e.count as nat == n - 1;
      assert rest == [e.b] + Repeat(e.b, n - 1) + Expand(tail[3..]);
      Regroup(done, e.b, Repeat(e.b, n - 1), Expand(tail[3..]));
    } else {
      assert tail[1..] == image[e.next..];
      Regroup(done, e.b, [], Expand(tail[1..]));
      assert Repeat(e.b, 0) == [];
      assert [e.b] + [] + Expand(tail[1..]) == rest;
    }
  }

  lemma Regroup(a: seq<byte>, b: byte, c: seq<byte>, d: seq<byte>)
    ensures a + ([b] + c + d) == a + [b] + c + d
  {}

  lemma StartProgress(image: seq<byte>)
    ensures Progress(image, [], Decoder(0, 0, 0))
  {
    assert image[0..] == image && [] + Repeat(0, 0) + Expand(image) == Expand(image);
  }

  lemma ProgressPrefix(image: seq<byte>, done: seq<byte>, d: Decoder)
    requires Progress(image, done, d)
    ensures |done| <= |Expand(image)| && done == Expand(image)[..|done|]
  {}

  /** The inner loop's choice of the next pixel. */
  method NextPixel(image: seq<byte>, d: Decoder) returns (e: Decoder)
    requires Readable(image, d)
    ensures e == Pull(image, d)
  {
    var imageByte, writeByteCount, next := d.b, d.count, d.next;
    if writeByteCount == 0 {
      imageByte := image[next];
      var nextImageByte := image[next + 1];
      next := next + 2;
      if imageByte == nextImageByte {
        writeByteCount := image[next];
        next := next + 1;
      } else {
        writeByteCount := 1;
        next := next - 1;
      }
    }
    writeByteCount := if writeByteCount == 0 then 255 else writeByteCount - 1;
    e := Decoder(imageByte, writeByteCount, next);
  }

  /** `ssd1306_write_image_fb`: the buffer gets the first screenful of what the image stands for, and
      nothing past the image is read as long as there is a screenful. */
  method WriteImage(image: seq<byte>, fb: array<byte>)
    requires fb.Length == BYTES && |Expand(image)| >= BYTES
    modifies fb
    ensures fb[..] == Expand(image)[..BYTES]
  {
    hide Progress, Pull, Readable;
    var d := Decoder(0, 0, 0);
    StartProgress(image);
    assert fb[..0] == [];
    for page := 0 to PAGES
      invariant Progress(image, fb[..page * COLUMNS], d)
    {
      for column := 0 to COLUMNS
        invariant Progress(image, fb[..page * COLUMNS + column], d)
      {
        ghost var k := page * COLUMNS + column;
        ghost var done := fb[..k];
        PullKeeps(image, done, d);
        d := NextPixel(image, d);
        fb[page * COLUMNS + column] := d.b;
        assert fb[..k + 1] == done + [d.b];
      }
    }
    ProgressPrefix(image, fb[..BYTES], d);
    assert fb[..BYTES] == fb[..];
  }

  /** The requirement is exact: once the picture is used up, the next pixel needs a byte past the image. */
  lemma RunsDry(image: seq<byte>, done: seq<byte>, d: Decoder)
    requires Progress(image, done, d) && |done| == |Expand(image)|
    ensures !Readable(image, d)
  {
    assert d.count == 0;
    ExpandsToNothing(image[d.next..]);
  }

  lemma ExpandsToNothing(image: seq<byte>)
    ensures Expand(image) == [] <==> |image| < 2 || (image[0] == image[1] && |image| < 3)
  {
    if |image| >= 3 && image[0] == image[1] {
      assert |Repeat(image[0], RunLength(image[2]))| >= 1;
    }
  }

  // ---- The part ----

  const HORIZONTAL: byte := 0
  const PAGE_MODE: byte := 2

  datatype Look = Look(inverted: bool, on: bool, remap0: bool, scanNormal: bool, contrast: byte)

  /** `vram` row by row; `command` is the command waiting for its arguments, `left` their count. */
  datatype Oled = Oled(vram: seq<byte>, page: byte, column: byte, command: byte, left: byte, mode: byte, look: Look)
  {
    predicate Valid() { |vram| == BYTES }
    /** Between commands, in the mode and at the column that a frame transfer needs. */
    predicate Ready() { Valid() && command == 0 && mode == HORIZONTAL && column == 0 }
  }

  /** Rows follow each other in memory; what would land after the last row is not modelled. */
  function Put(vram: seq<byte>, page: byte, column: byte, b: byte): (v: seq<byte>)
    ensures |v| == |vram|
  {
    var i := page as int * COLUMNS + column as int;
    if i < |vram| then vram[i := b] else vram
  }

  /** `ssd1306_write_data`. */
  function WriteData(p: Oled, b: byte): (q: Oled)
    requires p.Valid()
    ensures q.Valid()
  {
    var stored := p.(vram := Put(p.vram, p.page, p.column, b));
    var column, page := Incremented(p.column), Incremented(p.page);
    if column < 128 then stored.(column := column)
    else if p.mode != HORIZONTAL then stored.(column := 0)
    else stored.(column := 0, page := if page < 8 then page else 0)
  }

  /** `ssd1306_update_command_register`: the first byte of a command. */
  function FirstByte(p: Oled, b: byte): (q: Oled)
    requires p.Valid()
    ensures q.Valid()
  {
    var p := p.(left := 1);
    var done := p.(command := 0);
    if b == 0x8D || b == 0x81 then p.(command := b)
    else if b == 0xA6 || b == 0xA7 then done.(look := p.look.(inverted := b == 0xA7))
    else if b == 0xAE || b == 0xAF then done.(look := p.look.(on := b == 0xAF))
    else if 0xB0 <= b <= 0xB7 then done.(page := b - 0xB0)
    else if b <= 0x0F then (if p.mode == PAGE_MODE then done.(column := p.column / 16 * 16 + b) else done)
    else if b <= 0x1F then (if p.mode == PAGE_MODE then done.(column := p.column % 16 + (b - 0x10) * 16) else done)
    else if b == 0xA0 || b == 0xA1 then done.(look := p.look.(remap0 := b == 0xA0))
    else if b == 0xC0 || b == 0xC8 then done.(look := p.look.(scanNormal := b == 0xC0))
    else if b == 0x26 || b == 0x27 then p.(command := b, left := 6)
    else if b == 0x29 || b == 0x2A then p.(command := b, left := 5)
    else if b in {0xD5, 0xA8, 0xD3, 0x20, 0x40, 0xDA, 0xD9, 0xDB} then p.(command := b)
    else if b in {0xA3, 0x22, 0x21} then p.(command := b, left := 2)
    else if b in {0x2F, 0x2E, 0xA4} then done
    else p
  }

  /** `ssd1306_update_setting`: a further byte of a command. */
  function Argument(p: Oled, b: byte): (q: Oled)
    requires p.Valid()
    ensures q.Valid()
  {
    var left := if p.left == 0 then 255 else p.left - 1;
    var done := p.(command := 0);
    if p.command == 0x81 then done.(look := p.look.(contrast := b))
    else if p.command == 0x22 then
      if left == 1 then p.(left := left, page := b) else if left == 0 then done.(left := left) else p.(left := left)
    else if p.command == 0x21 then
      if left == 1 then p.(left := left, column := b) else if left == 0 then done.(left := left) else p.(left := left)
    else if p.command == 0x20 then done.(mode := b)
    else if p.command in {0x40, 0xD5, 0xA8, 0xD3, 0xD9, 0xDB, 0xDA, 0x8D} then done
    else if p.command in {0x26, 0x27, 0x29, 0x2A, 0xA3} then
      if left == 0 then done.(left := left) else p.(left := left)
    else p
  }

  /** `ssd1306_write_command`. */
  function WriteCommand(p: Oled, b: byte): (q: Oled)
    requires p.Valid()
    ensures q.Valid()
  {
    if p.command == 0 then FirstByte(p, b) else Argument(p, b)
  }

  function Commands(p: Oled, bytes: seq<byte>): (q: Oled)
    requires p.Valid()
    ensures q.Valid()
    decreases |bytes|
  {
    if bytes == [] then p else Commands(WriteCommand(p, bytes[0]), bytes[1..])
  }

  function AllData(p: Oled, bytes: seq<byte>): (q: Oled)
    requires p.Valid()
    ensures q.Valid()
  {
    if bytes == [] then p else WriteData(AllData(p, bytes[..|bytes| - 1]), bytes[|bytes| - 1])
  }

  // ---- Whole commands ----

  /** How many bytes follow each command. */
  function ArgumentsOf(b: byte): nat {
    match b
    case 0x26 => 6 case 0x27 => 6 case 0x29 => 5 case 0x2A => 5
    case 0x21 => 2 case 0x22 => 2 case 0xA3 => 2
    case 0x20 => 1 case 0x40 => 1 case 0x81 => 1 case 0x8D => 1 case 0xA8 => 1
    case 0xD3 => 1 case 0xD5 => 1 case 0xD9 => 1 case 0xDA => 1 case 0xDB => 1
    case _ => 0
  }

  /** What a command with its arguments is for. Outside page mode the column commands do nothing. */
  ghost predicate Obeyed(p: Oled, b: byte, args: seq<byte>, q: Oled)
    requires |args| == ArgumentsOf(b)
  {
    var r := p.(left := q.left);
    match b
    case 0x20 => q == r.(mode := args[0])
    case 0x21 => q == r.(column := args[0])
    case 0x22 => q == r.(page := args[0])
    case 0x81 => q == r.(look := p.look.(contrast := args[0]))
    case 0xA0 => q == r.(look := p.look.(remap0 := true))
    case 0xA1 => q == r.(look := p.look.(remap0 := false))
    case 0xA6 => q == r.(look := p.look.(inverted := false))
    case 0xA7 => q == r.(look := p.look.(inverted := true))
    case 0xAE => q == r.(look := p.look.(on := false))
    case 0xAF => q == r.(look := p.look.(on := true))
    case 0xC0 => q == r.(look := p.look.(scanNormal := true))
    case 0xC8 => q == r.(look := p.look.(scanNormal := false))
    case _ =>
      if b < 0x20 && p.mode == PAGE_MODE then
        q == r.(column := q.column)
        && (b < 0x10 ==> q.column / 16 == p.column / 16 && q.column % 16 == b)
        && (b >= 0x10 ==> q.column % 16 == p.column % 16 && q.column / 16 == b - 0x10)
      else if 0xB0 <= b < 0xB8 then q == r.(page := b - 0xB0)
      else q == r
  }

  lemma {:induction false} Skipped(p: Oled, args: seq<byte>)
    requires p.Valid() && p.command in {0x26, 0x27, 0x29, 0x2A, 0xA3} && p.left as int == |args| > 0
    ensures Commands(p, args) == p.(command := 0, left := 0)
    decreases |args|
  {
    if |args| > 1 {
      Skipped(WriteCommand(p, args[0]), args[1..]);
    } else {
      assert args[1..] == [];
    }
  }

  lemma OneArgument(p: Oled, b: byte, a: byte)
    requires p.Valid() && p.command == 0 && ArgumentsOf(b) == 1
    ensures var q := WriteCommand(WriteCommand(p, b), a); q.command == 0 && Obeyed(p, b, [a], q)
  {}

  lemma TwoArguments(p: Oled, b: byte, a: byte, c: byte)
    requires p.Valid() && p.command == 0 && (b == 0x21 || b == 0x22)
    ensures var q := WriteCommand(WriteCommand(WriteCommand(p, b), a), c); q.command == 0 && Obeyed(p, b, [a, c], q)
  {}

  lemma NoArgument(p: Oled, b: byte)
    requires p.Valid() && p.command == 0 && ArgumentsOf(b) == 0
    ensures var q := WriteCommand(p, b); q.command == 0 && Obeyed(p, b, [], q)
  {}

  /** Every command byte takes exactly its arguments and does exactly what it is for, and then the part is between
      commands again. */
  lemma WholeCommand(p: Oled, b: byte, args: seq<byte>)
    requires p.Valid() && p.command == 0 && |args| == ArgumentsOf(b)
    ensures var q := Commands(p, [b] + args); q.command == 0 && Obeyed(p, b, args, q)
  {
    hide WriteCommand, Commands, Obeyed;
    var m := WriteCommand(p, b);
    CommandsStep(p, b, args);
    if |args| == 0 {
      NoArgument(p, b);
      assert args == [];
      NoCommands(m);
    } else if |args| == 1 {
      OneArgument(p, b, args[0]);
      assert args == [args[0]] && [args[0]] + [] == [args[0]];
      CommandsStep(m, args[0], []);
      NoCommands(WriteCommand(m, args[0]));
    } else if b == 0x21 || b == 0x22 {
      var x, y := args[0], args[1];
      TwoArguments(p, b, x, y);
      assert args == [x, y] && [x] + [y] == [x, y] && [y] + [] == [y];
      CommandsStep(m, x, [y]);
      CommandsStep(WriteCommand(m, x), y, []);
      NoCommands(WriteCommand(WriteCommand(m, x), y));
    } else {
      ScrollCommand(p, b, args);
    }
  }

  lemma CommandsStep(p: Oled, b: byte, args: seq<byte>)
    requires p.Valid()
    ensures Commands(p, [b] + args) == Commands(WriteCommand(p, b), args)
  {
    hide WriteCommand;
    assert ([b] + args)[1..] == args;
  }

  lemma NoCommands(p: Oled)
    requires p.Valid()
    ensures Commands(p, []) == p
  {}

  lemma ScrollCommand(p: Oled, b: byte, args: seq<byte>)
    requires p.Valid() && p.command == 0 && |args| == ArgumentsOf(b) > 1 && b != 0x21 && b != 0x22
    ensures var q := Commands(WriteCommand(p, b), args); q.command == 0 && Obeyed(p, b, args, q)
  {
    Skipped(WriteCommand(p, b), args);
  }

  /** Outside horizontal mode the page stays and the column goes round. */
  lemma {:induction false} RowGoesRound(p: Oled, bytes: seq<byte>)
    requires p.Valid() && p.mode != HORIZONTAL && p.column < 128
    ensures var q := AllData(p, bytes);
            q == p.(vram := q.vram, column := q.column) && q.column as int == (p.column as int + |bytes|) % 128
  {
    if bytes != [] {
      RowGoesRound(p, bytes[..|bytes| - 1]);
      NextColumn(p.column as int + |bytes| - 1);
    }
  }

  lemma NextColumn(n: nat)
    ensures (n + 1) % 128 == if n % 128 == 127 then 0 else n % 128 + 1
  {}

  // ---- Frames ----

  const HOME: seq<byte> := [0xB0, 0x10, 0x00]

  /** `ssd1306_display_fb`. */
  function Display(p: Oled, fb: seq<byte>): (q: Oled)
    requires p.Valid()
    ensures q.Valid()
  {
    AllData(Commands(p, HOME), fb)
  }

  lemma HomeIs(p: Oled)
    requires p.Valid() && p.command == 0 && p.mode == HORIZONTAL
    ensures Commands(p, HOME) == p.(page := 0, left := 1)
  {
    assert HOME[1..] == [0x10, 0x00] && HOME[1..][1..] == [0x00] && HOME[1..][1..][1..] == [];
    assert Commands(p, HOME) == Commands(WriteCommand(p, 0xB0), HOME[1..]);
  }

  function Slot(c: nat, i: nat): nat { (c + i) % BYTES }

  ghost predicate Sent(p: Oled, q: Oled, bytes: seq<byte>) {
    var n, c := |bytes|, p.column as nat;
    var at := Slot(c, n);
    && q == p.(vram := q.vram, page := (at / COLUMNS) as byte, column := (at % COLUMNS) as byte)
    && |q.vram| == BYTES
    && (forall i | 0 <= i < n :: q.vram[Slot(c, i)] == bytes[i])
  }

  lemma {:induction false} DataFlows(p: Oled, bytes: seq<byte>)
    requires p.Valid() && p.mode == HORIZONTAL && p.page == 0 && p.column < 128 && |bytes| <= BYTES
    ensures Sent(p, AllData(p, bytes), bytes)
  {
    if bytes != [] {
      hide Sent, WriteData;
      var n := |bytes| - 1;
      DataFlows(p, bytes[..n]);
      OneByte(p, AllData(p, bytes[..n]), bytes[..n], bytes[n]);
      assert bytes[..n] + [bytes[n]] == bytes;
    }
  }

  lemma CursorStep(at: nat)
    requires at < BYTES
    ensures var next := (at + 1) % BYTES;
            && next / COLUMNS == (if at % COLUMNS < 127 then at / COLUMNS
                                  else if at / COLUMNS < 7 then at / COLUMNS + 1 else 0)
            && next % COLUMNS == (if at % COLUMNS < 127 then at % COLUMNS + 1 else 0)
  {}

  /** In horizontal mode page and column are one counter, modulo the size of the screen. */
  lemma CursorCounts(q: Oled, b: byte, at: nat)
    requires q.Valid() && q.mode == HORIZONTAL && at < BYTES
    requires q.page as nat == at / COLUMNS && q.column as nat == at % COLUMNS
    ensures var next := (at + 1) % BYTES;
            WriteData(q, b) ==
            q.(vram := q.vram[at := b], page := (next / COLUMNS) as byte, column := (next % COLUMNS) as byte)
  {
    CursorStep(at);
  }

  lemma OneByte(p: Oled, q: Oled, bytes: seq<byte>, b: byte)
    requires p.Valid() && p.mode == HORIZONTAL && p.column < 128 && |bytes| < BYTES && Sent(p, q, bytes)
    ensures Sent(p, WriteData(q, b), bytes + [b])
  {
    hide WriteData;
    var c, n := p.column as nat, |bytes|;
    var at := Slot(c, n);
    CursorCounts(q, b, at);
    var r := WriteData(q, b);
    assert r.vram == q.vram[at := b];
    forall i | 0 <= i < n ensures r.vram[Slot(c, i)] == bytes[i] {
      Distinct(c, i, n);
    }
    NextSlot(c, n);
  }

  lemma NextSlot(c: nat, n: nat)
    ensures Slot(c, n + 1) == (Slot(c, n) + 1) % BYTES
  {}

  lemma Distinct(c: nat, i: nat, n: nat)
    requires c < 128 && i < n < BYTES
    ensures Slot(c, i) != Slot(c, n)
  {}

  /** In horizontal mode the column commands of the cursor reset do nothing, so a frame lands shifted by
      the column the cursor was at, around the whole screen; the cursor comes back to that column. */
  lemma DisplayRotates(p: Oled, fb: seq<byte>)
    requires p.Valid() && p.command == 0 && p.mode == HORIZONTAL && p.column < 128 && |fb| == BYTES
    ensures var q := Display(p, fb);
            && q == p.(page := 0, left := 1, vram := q.vram)
            && forall i | 0 <= i < BYTES :: q.vram[Slot(p.column as nat, i)] == fb[i]
  {
    hide Commands, AllData, WriteData;
    HomeIs(p);
    DataFlows(p.(page := 0, left := 1), fb);
    FullCircle(p.column as nat);
  }

  lemma FullCircle(c: nat)
    requires c < COLUMNS
    ensures Slot(c, BYTES) == c && c / COLUMNS == 0 && c % COLUMNS == c
  {}

  ghost predicate ShowsEveryFrame(p: Oled)
    requires p.Valid()
  {
    forall fb: seq<byte> | |fb| == BYTES :: Display(p, fb).vram == fb
  }

  lemma DisplayShows(p: Oled, fb: seq<byte>)
    requires p.Ready() && |fb| == BYTES
    ensures Display(p, fb) == p.(page := 0, left := 1, vram := fb)
  {
    DisplayRotates(p, fb);
    forall i | 0 <= i < BYTES ensures Slot(0, i) == i {}
  }

  /** The screen shows every frame exactly when the cursor starts in the first column. */
  lemma ShowsExactlyFromColumnZero(p: Oled)
    requires p.Valid() && p.command == 0 && p.mode == HORIZONTAL && p.column < 128
    ensures ShowsEveryFrame(p) <==> p.column == 0
  {
    hide Display;
    if p.column == 0 {
      forall fb: seq<byte> | |fb| == BYTES ensures Display(p, fb).vram == fb {
        DisplayShows(p, fb);
      }
    } else {
      var fb: seq<byte> := seq(BYTES, i => if i == 0 then 1 else 0);
      DisplayRotates(p, fb);
      var c := p.column as nat;
      assert Slot(c, 0) == c;
      assert Display(p, fb).vram[Slot(c, 0)] == fb[0] == 1;
      assert fb[c] == 0;
    }
  }

  // ---- Everything the driver does once the screen is up ----

  datatype Orientation = Normal | NormalMirrored | UpsideDown | UpsideDownMirrored

  datatype Call =
    | DisplayFb(fb: seq<byte>)
    | ClearScreen
    | SetContrast(contrast: byte)
    | SetDisplayMode(inverted: bool)
    | SetPowerState(on: bool)
    | SetOrientation(orientation: Orientation)

  function OrientationBytes(o: Orientation): seq<byte> {
    match o
    case Normal => [0xA0, 0xC0]
    case NormalMirrored => [0xA0, 0xC8]
    case UpsideDown => [0xA1, 0xC8]
    case UpsideDownMirrored => [0xA1, 0xC0]
  }

  function Blank(): (fb: seq<byte>)
    ensures |fb| == BYTES && forall i | 0 <= i < BYTES :: fb[i] == 0
  {
    seq(BYTES, _ => 0)
  }

  function Perform(p: Oled, c: Call): (q: Oled)
    requires p.Valid()
    ensures q.Valid()
  {
    match c
    case DisplayFb(fb) => Display(p, fb)
    case ClearScreen => Display(p, Blank())
    case SetContrast(x) => Commands(p, [0x81, x])
    case SetDisplayMode(inverted) => Commands(p, [if inverted then 0xA7 else 0xA6])
    case SetPowerState(on) => Commands(p, [if on then 0xAF else 0xAE])
    case SetOrientation(o) => Commands(p, OrientationBytes(o))
  }

  function PerformAll(p: Oled, calls: seq<Call>): (q: Oled)
    requires p.Valid()
    ensures q.Valid()
    decreases |calls|
  {
    if calls == [] then p else PerformAll(Perform(p, calls[0]), calls[1..])
  }

  /** What should be on the screen, and how it should look. */
  datatype Screen = Screen(frame: seq<byte>, look: Look)

  function Intended(s: Screen, c: Call): Screen {
    match c
    case DisplayFb(fb) => s.(frame := fb)
    case ClearScreen => s.(frame := Blank())
    case SetContrast(x) => s.(look := s.look.(contrast := x))
    case SetDisplayMode(inverted) => s.(look := s.look.(inverted := inverted))
    case SetPowerState(on) => s.(look := s.look.(on := on))
    case SetOrientation(o) =>
      s.(look := s.look.(remap0 := o.Normal? || o.NormalMirrored?, scanNormal := o.Normal? || o.UpsideDownMirrored?))
  }

  function IntendedAll(s: Screen, calls: seq<Call>): Screen
    decreases |calls|
  {
    if calls == [] then s else IntendedAll(Intended(s, calls[0]), calls[1..])
  }

  ghost predicate FullFrame(c: Call) { c.DisplayFb? ==> |c.fb| == BYTES }

  lemma TwoCommands(p: Oled, a: byte, b: byte)
    requires p.Valid()
    ensures Commands(p, [a]) == WriteCommand(p, a)
    ensures Commands(p, [a, b]) == WriteCommand(WriteCommand(p, a), b)
  {
    hide WriteCommand;
    assert [a][1..] == [];
    assert [a, b][1..] == [b] && [b][1..] == [];
    assert Commands(p, [a, b]) == Commands(WriteCommand(p, a), [b]);
  }

  lemma CallDone(p: Oled, c: Call)
    requires p.Ready() && FullFrame(c)
    ensures var q := Perform(p, c); q.Ready() && Screen(q.vram, q.look) == Intended(Screen(p.vram, p.look), c)
  {
    hide Display, Commands;
    match c {
      case DisplayFb(fb) => DisplayShows(p, fb);
      case ClearScreen => DisplayShows(p, Blank());
      case SetContrast(x) => TwoCommands(p, 0x81, x);
      case SetDisplayMode(inverted) => TwoCommands(p, if inverted then 0xA7 else 0xA6, 0);
      case SetPowerState(on) => TwoCommands(p, if on then 0xAF else 0xAE, 0);
      case SetOrientation(o) => TwoCommands(p, OrientationBytes(o)[0], OrientationBytes(o)[1]);
    }
  }

  /** Over any sequence of frames and settings the screen is what was asked for last. */
  lemma {:induction false} ScreenFollows(p: Oled, calls: seq<Call>)
    requires p.Ready() && forall c | c in calls :: FullFrame(c)
    ensures var q := PerformAll(p, calls);
            q.Ready() && Screen(q.vram, q.look) == IntendedAll(Screen(p.vram, p.look), calls)
    decreases |calls|
  {
    hide Perform, Intended;
    if calls != [] {
      CallDone(p, calls[0]);
      ScreenFollows(Perform(p, calls[0]), calls[1..]);
    }
  }

  // ---- Initialisation and single bytes ----

  /** `ssd1306_init_display`. The driver sends the start line command as one byte. */
  const INIT: seq<byte> := [0xAE, 0xA8, 0x3F, 0xD3, 0x00, 0x40, 0xA0, 0xC0, 0xDA, 0x12, 0x81, 0x7F,
                            0xA4, 0xA6, 0x20, 0x00, 0xD5, 0x80, 0x8D, 0x14, 0xAF]

  lemma {:induction false} CommandsAppend(p: Oled, a: seq<byte>, b: seq<byte>)
    requires p.Valid()
    ensures Commands(p, a + b) == Commands(Commands(p, a), b)
    decreases |a|
  {
    hide WriteCommand;
    if a == [] {
      assert a + b == b;
    } else {
      assert (a + b)[1..] == a[1..] + b;
      CommandsAppend(WriteCommand(p, a[0]), a[1..], b);
    }
  }

  lemma ThreeCommands(p: Oled, a: byte, b: byte, c: byte)
    requires p.Valid()
    ensures Commands(p, [a, b, c]) == WriteCommand(WriteCommand(WriteCommand(p, a), b), c)
  {
    hide Commands, WriteCommand;
    TwoCommands(p, a, b);
    TwoCommands(Commands(p, [a, b]), c, 0);
    CommandsAppend(p, [a, b], [c]);
    assert [a, b] + [c] == [a, b, c];
  }

  /** A third of the initialisation at a time, with the start line command swallowing the segment remap. */
  lemma InitFirst(p: Oled)
    requires p.Valid() && p.command == 0
    ensures Commands(p, INIT[..9]) == p.(left := 1, command := 0xDA, look := p.look.(on := false, scanNormal := true))
  {
    hide Commands;
    var a, b, c := [0xAE, 0xA8, 0x3F], [0xD3, 0x00, 0x40], [0xA0, 0xC0, 0xDA];
    assert INIT[..9] == a + (b + c);
    var pa := p.(left := 1, look := p.look.(on := false));
    var pb := pa.(command := 0x40);
    CommandsAppend(p, a, b + c);
    CommandsAppend(pa, b, c);
    InitOff(p);
    InitStart(pa);
    InitScan(pb);
  }

  lemma InitOff(p: Oled)
    requires p.Valid() && p.command == 0
    ensures Commands(p, [0xAE, 0xA8, 0x3F]) == p.(left := 1, look := p.look.(on := false))
  {
    hide Commands;
    ThreeCommands(p, 0xAE, 0xA8, 0x3F);
  }

  lemma InitStart(p: Oled)
    requires p.Valid() && p.command == 0
    ensures Commands(p, [0xD3, 0x00, 0x40]) == p.(left := 1, command := 0x40)
  {
    hide Commands;
    ThreeCommands(p, 0xD3, 0x00, 0x40);
  }

  lemma InitScan(p: Oled)
    requires p.Valid() && p.command == 0x40 && p.left == 1
    ensures Commands(p, [0xA0, 0xC0, 0xDA]) == p.(command := 0xDA, look := p.look.(scanNormal := true))
  {
    hide Commands;
    ThreeCommands(p, 0xA0, 0xC0, 0xDA);
  }

  lemma InitSecond(p: Oled)
    requires p.Valid() && p.command == 0xDA
    ensures Commands(p, INIT[9..15]) ==
            p.(left := 1, command := 0x20, look := p.look.(inverted := false, contrast := 0x7F))
  {
    hide Commands;
    var a, b := [0x12, 0x81, 0x7F], [0xA4, 0xA6, 0x20];
    assert INIT[9..15] == a + b;
    CommandsAppend(p, a, b);
    ThreeCommands(p, 0x12, 0x81, 0x7F);
    var pa := p.(left := 1, command := 0, look := p.look.(contrast := 0x7F));
    assert Commands(p, a) == pa;
    ThreeCommands(pa, 0xA4, 0xA6, 0x20);
  }

  lemma InitThird(p: Oled)
    requires p.Valid() && p.command == 0x20
    ensures Commands(p, INIT[15..]) == p.(left := 1, command := 0, mode := HORIZONTAL, look := p.look.(on := true))
  {
    hide Commands;
    var a, b := [0x00, 0xD5, 0x80], [0x8D, 0x14, 0xAF];
    assert INIT[15..] == a + b;
    CommandsAppend(p, a, b);
    ThreeCommands(p, 0x00, 0xD5, 0x80);
    var pa := p.(left := 1, command := 0, mode := HORIZONTAL);
    assert Commands(p, a) == pa;
    ThreeCommands(pa, 0x8D, 0x14, 0xAF);
  }

  /** The commands select horizontal mode, the default contrast and a lit, upright picture; the segment
      remap flag keeps its value, because that command is taken for the start line's argument. */
  lemma InitCommands(p: Oled)
    requires p.Valid() && p.command == 0
    ensures Commands(p, INIT) ==
            p.(left := 1, mode := HORIZONTAL, look := Look(false, true, p.look.remap0, true, 0x7F))
  {
    hide Commands;
    assert INIT == INIT[..9] + (INIT[9..15] + INIT[15..]);
    CommandsAppend(p, INIT[..9], INIT[9..15] + INIT[15..]);
    InitFirst(p);
    CommandsAppend(Commands(p, INIT[..9]), INIT[9..15], INIT[15..]);
    InitSecond(Commands(p, INIT[..9]));
    InitThird(Commands(Commands(p, INIT[..9]), INIT[9..15]));
  }

  /** `ssd1306_reset_hook` on a falling edge, for a 128 by 64 screen: rows times pages is half the memory. */
  function Reset(p: Oled): (q: Oled)
    requires p.Valid()
    ensures q.Valid()
  {
    p.(vram := Blank()[..64 * PAGES] + p.vram[64 * PAGES..], page := 0, column := 0, command := 0,
       mode := PAGE_MODE, look := Look(false, false, true, true, 0x7F))
  }

  /** Powering up from any state makes the part ready for frames; the lower half of the old picture stays. */
  lemma InitReady(p: Oled)
    requires p.Valid()
    ensures var q := Commands(Reset(p), INIT);
            && q.Ready() && q.look == Look(false, true, true, true, 0x7F)
            && |q.vram| == BYTES && forall i | 0 <= i < BYTES :: q.vram[i] == if i < 512 then 0 else p.vram[i]
  {
    InitCommands(Reset(p));
  }

  /** `ssd1306_write_byte`. */
  function ByteAt(p: Oled, x: byte, page: byte, b: byte): (q: Oled)
    requires p.Valid() && page < 8
    ensures q.Valid()
  {
    WriteData(Commands(p, [0xB0 + page, x % 16, 0x10 + x / 16]), b)
  }

  lemma NibblesJoin(column: int, x: int)
    requires 0 <= column < 256 && 0 <= x < 256
    ensures var low := column / 16 * 16 + x % 16; low < 256 && low % 16 + x / 16 * 16 == x
  {}

  lemma Addressed(p: Oled, x: byte, page: byte)
    requires p.Valid() && p.command == 0 && page < 8 && x < 128
    ensures Commands(p, [0xB0 + page, x % 16, 0x10 + x / 16]) ==
            p.(left := 1, page := page, column := if p.mode == PAGE_MODE then x else p.column)
  {
    hide Commands;
    ThreeCommands(p, 0xB0 + page, x % 16, 0x10 + x / 16);
    NibblesJoin(p.column as int, x as int);
    var paged := p.(left := 1, page := page);
    assert WriteCommand(p, 0xB0 + page) == paged;
    var low := paged.(column := if p.mode == PAGE_MODE then p.column / 16 * 16 + x % 16 else p.column);
    assert WriteCommand(paged, x % 16) == low;
  }

  lemma ByteLands(p: Oled, x: byte, page: byte, b: byte)
    requires p.Valid() && p.command == 0 && page < 8 && x < 128 && p.column < 128
    ensures ByteAt(p, x, page, b).vram ==
            p.vram[page as int * COLUMNS + (if p.mode == PAGE_MODE then x else p.column) as int := b]
  {
    hide Commands;
    Addressed(p, x, page);
  }

  /** A single byte goes where it should exactly in page mode, or where the cursor happens to be right;
      initialisation selects horizontal mode, so the column is not obeyed there. */
  lemma ByteObeysExactlyInPageMode(p: Oled, x: byte, page: byte)
    requires p.Valid() && p.command == 0 && page < 8 && x < 128 && p.column < 128
    ensures (forall b :: ByteAt(p, x, page, b).vram == p.vram[page as int * COLUMNS + x as int := b])
            <==> p.mode == PAGE_MODE || p.column == x
  {
    hide ByteAt;
    var at := page as int * COLUMNS + x as int;
    forall b: byte ensures ByteAt(p, x, page, b).vram ==
      p.vram[page as int * COLUMNS + (if p.mode == PAGE_MODE then x else p.column) as int := b]
    {
      ByteLands(p, x, page, b);
    }
    if p.mode != PAGE_MODE && p.column != x {
      var b: byte := if p.vram[at] == 0 then 1 else 0;
      assert ByteAt(p, x, page, b).vram[at] == p.vram[at] != b;
    }
  }

  // ---- The part and the driver step by step ----

  class Ssd1306Virt {
    const vram: array<byte>
    var page: byte
    var column: byte
    var command: byte
    var left: byte
    var mode: byte
    var look: Look

    function State(): Oled
      reads this, vram
    {
      Oled(vram[..], page, column, command, left, mode, look)
    }

    constructor ()
      ensures fresh(vram) && State() == Oled(Blank(), 0, 0, 0, 0, 0, Look(false, false, false, false, 0))
    {
      vram := new byte[BYTES](_ => 0);
      page, column, command, left, mode := 0, 0, 0, 0, 0;
      look := Look(false, false, false, false, 0);
      new;
      assert vram[..] == Blank();
    }

    method StoreByte(b: byte)
      requires vram.Length == BYTES
      modifies vram
      ensures vram[..] == Put(old(vram[..]), page, column, b)
    {
      var i := page as int * COLUMNS + column as int;
      if i < BYTES {
        vram[i] := b;
      }
    }

    method DataByte(b: byte)
      requires State().Valid()
      modifies this`page, this`column, vram
      ensures State() == WriteData(old(State()), b)
    {
      hide Put;
      StoreByte(b);
      column := Incremented(column);
      if column >= 128 {
        column := 0;
        if mode == HORIZONTAL {
          page := Incremented(page);
          if page >= 8 {
            page := 0;
          }
        }
      }
    }

    method CommandByte(b: byte)
      requires State().Valid()
      modifies this`page, this`column, this`command, this`left, this`mode, this`look
      ensures State() == WriteCommand(old(State()), b)
    {
      hide FirstByte, Argument;
      if command == 0 {
        UpdateCommandRegister(b);
      } else {
        UpdateSetting(b);
      }
    }

    method UpdateCommandRegister(b: byte)
      requires State().Valid()
      modifies this`page, this`column, this`command, this`left, this`look
      ensures State() == FirstByte(old(State()), b)
    {
      left := 1;
      if b == 0x8D || b == 0x81 || b in {0xD5, 0xA8, 0xD3, 0x20, 0x40, 0xDA, 0xD9, 0xDB} {
        command := b;
      } else if b == 0x26 || b == 0x27 {
        command, left := b, 6;
      } else if b == 0x29 || b == 0x2A {
        command, left := b, 5;
      } else if b in {0xA3, 0x22, 0x21} {
        command, left := b, 2;
      } else if 0xB0 <= b <= 0xB7 {
        command, page := 0, b - 0xB0;
      } else if b <= 0x0F {
        if mode == PAGE_MODE {
          column := column / 16 * 16 + b;
        }
        command := 0;
      } else if b <= 0x1F {
        if mode == PAGE_MODE {
          column := column % 16 + (b - 0x10) * 16;
        }
        command := 0;
      } else if b in {0x2F, 0x2E, 0xA4} {
        command := 0;
      } else {
        SetFlag(b);
      }
    }

    /** The one-byte commands that set a flag, and the unknown ones. */
    method SetFlag(b: byte)
      modifies this`command, this`look
      ensures b in {0xA6, 0xA7, 0xAE, 0xAF, 0xA0, 0xA1, 0xC0, 0xC8} ==> command == 0
      ensures b !in {0xA6, 0xA7, 0xAE, 0xAF, 0xA0, 0xA1, 0xC0, 0xC8} ==> command == old(command)
      ensures look == if b == 0xA6 || b == 0xA7 then old(look).(inverted := b == 0xA7)
                      else if b == 0xAE || b == 0xAF then old(look).(on := b == 0xAF)
                      else if b == 0xA0 || b == 0xA1 then old(look).(remap0 := b == 0xA0)
                      else if b == 0xC0 || b == 0xC8 then old(look).(scanNormal := b == 0xC0)
                      else old(look)
    {
      if b == 0xA6 || b == 0xA7 {
        command, look := 0, look.(inverted := b == 0xA7);
      } else if b == 0xAE || b == 0xAF {
        command, look := 0, look.(on := b == 0xAF);
      } else if b == 0xA0 || b == 0xA1 {
        command, look := 0, look.(remap0 := b == 0xA0);
      } else if b == 0xC0 || b == 0xC8 {
        command, look := 0, look.(scanNormal := b == 0xC0);
      }
    }

    method UpdateSetting(b: byte)
      requires State().Valid()
      modifies this`page, this`column, this`command, this`left, this`mode, this`look
      ensures State() == Argument(old(State()), b)
    {
      if command == 0x81 {
        command, look := 0, look.(contrast := b);
      } else if command == 0x20 {
        command, mode := 0, b;
      } else if command in {0x40, 0xD5, 0xA8, 0xD3, 0xD9, 0xDB, 0xDA, 0x8D} {
        command := 0;
      } else if command in {0x21, 0x22, 0x26, 0x27, 0x29, 0x2A, 0xA3} {
        left := if left == 0 then 255 else left - 1;
        if left == 1 && command == 0x22 {
          page := b;
        } else if left == 1 && command == 0x21 {
          column := b;
        } else if left == 0 {
          command := 0;
        }
      }
    }
  }

  method WriteInstruction(part: Ssd1306Virt, b: byte)
    requires part.State().Valid()
    modifies part, part.vram
    ensures part.State() == WriteCommand(old(part.State()), b)
  {
    part.CommandByte(b);
  }

  method ResetCursor(part: Ssd1306Virt)
    requires part.State().Valid()
    modifies part, part.vram
    ensures part.State() == Commands(old(part.State()), HOME)
  {
    hide WriteCommand, Commands;
    ThreeCommands(part.State(), 0xB0, 0x10, 0x00);
    WriteInstruction(part, 0xB0);
    WriteInstruction(part, 0x10);
    WriteInstruction(part, 0x00);
  }

  /** `ssd1306_display_fb`, the frame buffer row by row. */
  method DisplayFrame(part: Ssd1306Virt, fb: array<byte>)
    requires part.State().Valid() && fb.Length == BYTES && fb != part.vram
    modifies part, part.vram
    ensures part.State() == Display(old(part.State()), fb[..])
  {
    hide WriteData, Commands;
    ResetCursor(part);
    ghost var home := part.State();
    assert fb[..0] == [];
    for page := 0 to PAGES
      invariant part.State() == AllData(home, fb[..page * COLUMNS])
    {
      for column := 0 to COLUMNS
        invariant part.State() == AllData(home, fb[..page * COLUMNS + column])
      {
        ghost var k := page * COLUMNS + column;
        assert fb[..k + 1][..k] == fb[..k] && fb[..k + 1][k] == fb[k];
        part.DataByte(fb[page * COLUMNS + column]);
      }
    }
    assert fb[..BYTES] == fb[..];
  }

  /** An image on the screen: decoded into the buffer and sent, it is the picture the encoding stands for. */
  method ShowImage(part: Ssd1306Virt, image: seq<byte>, fb: array<byte>)
    requires part.State().Ready() && fb.Length == BYTES && fb != part.vram && |Expand(image)| >= BYTES
    modifies part, part.vram, fb
    ensures part.State().Ready() && part.State().vram == Expand(image)[..BYTES]
    ensures part.look == old(part.look)
  {
    hide Display;
    WriteImage(image, fb);
    DisplayShows(part.State(), fb[..]);
    DisplayFrame(part, fb);
  }
}
