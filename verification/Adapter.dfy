/**
  The editor's terminal adapter: it collects text and control sequences in a buffer and tracks the
  cursor it believes in. Feeding its output to the console driver carries out its operations.
 */
module Adapter {

  import opened Wrappers
  import opened Words
  import opened Ansi
  import opened Printer
  import Console
  import Terminal

  const QUESTION: byte := 0x3F

  datatype Op =
    | SetPos(y: nat, x: nat)
    | AddStr(str: Bytes)
    | Highlight(ops: seq<Op>)

  predicate Printable(s: Bytes) { forall b | b in s :: 0x20 <= b <= 0x7E }

  /** Coordinates fit a C int once they are counted from one, and text is printable ASCII. */
  predicate Supported(op: Op) {
    match op
    case SetPos(y, x) => y + 1 < INT_LIMIT && x + 1 < INT_LIMIT
    case AddStr(str) => Printable(str)
    case Highlight(ops) => forall o | o in ops :: Supported(o)
  }

  // ---- What the operations should do to the device ---------------------------------------------

  /** The calls an operation asks for; highlighting leaves the attribute as it is, twice. */
  function Calls(op: Op, attr: nat): seq<Action> {
    match op
    case SetPos(y, x) => [SetCursor(x, y)]
    case AddStr(str) => Printed(str)
    case Highlight(ops) => [SetAttribute(attr)] + CallsOf(ops, attr) + [SetAttribute(attr)]
  }

  function CallsOf(ops: seq<Op>, attr: nat): seq<Action> {
    if ops == [] then [] else Calls(ops[0], attr) + CallsOf(ops[1..], attr)
  }

  datatype Pos = Pos(y: nat, x: nat)

  /** The position the adapter tracks. */
  function Track(p: Pos, op: Op): Pos
    decreases op
  {
    match op
    case SetPos(y, x) => Pos(y, x)
    case AddStr(str) => Pos(p.y, p.x + |str|)
    case Highlight(ops) => TrackAll(p, ops)
  }

  function TrackAll(p: Pos, ops: seq<Op>): Pos
    decreases ops
  {
    if ops == [] then p else TrackAll(Track(p, ops[0]), ops[1..])
  }

  // ---- The bytes of one operation ------------------------------------------------------------

  function CursorBytes(y: nat, x: nat): Bytes {
    Sequence(Digits(y + 1) + [SEMICOLON] + Digits(x + 1), 'H' as int)
  }

  function PrivateBytes(n: nat, final: byte): Bytes { Sequence([QUESTION] + Digits(n), final) }

  function Bytes1(op: Op): Bytes {
    match op
    case SetPos(y, x) => CursorBytes(y, x)
    case AddStr(str) => str
    case Highlight(ops) => Sequence(Digits(7), 'm' as int) + BytesOf(ops) + Sequence(Digits(27), 'm' as int)
  }

  function BytesOf(ops: seq<Op>): Bytes {
    if ops == [] then [] else Bytes1(ops[0]) + BytesOf(ops[1..])
  }

  /** This stream is read as these calls, and leaves the reader between two items with its attribute unchanged. */
  ghost predicate ReadsAs(s: Bytes, attr: nat, actions: seq<Action>) {
    && Complete(s) && Bounded(s)
    && Meaning(s, attr) == actions
    && AttrAfter(attr, actions) == attr
  }

  lemma ReadsInTurn(a: Bytes, b: Bytes, attr: nat, first: seq<Action>, second: seq<Action>)
    requires ReadsAs(a, attr, first) && ReadsAs(b, attr, second)
    ensures ReadsAs(a + b, attr, first + second)
  {
    Concatenation(a, b, attr);
    AttrAppend(attr, first, second);
  }

  lemma SequenceReads(body: Bytes, final: byte, attr: nat, fields: seq<Bytes>, actions: seq<Action>)
    requires (forall b | b in body :: IsBody(b)) && IsFinal(final)
    requires Fields(body) == fields && BoundedFields(fields) && |fields| <= MAX_PARAMS
    requires Control(final, Values(fields), attr) == actions && AttrAfter(attr, actions) == attr
    ensures ReadsAs(Sequence(body, final), attr, actions)
  {
    SequenceMeaning(body, final, attr);
  }

  lemma CursorFields(row: Bytes, col: Bytes, y: nat, x: nat, attr: nat)
    requires row != [] && col != [] && Decimal(row) == y + 1 && Decimal(col) == x + 1
    ensures Control('H' as int, Values([row, col]), attr) == [SetCursor(x, y)]
  {
    assert Values([row, col]) == [Some(y + 1), Some(x + 1)];
  }

  lemma CursorReads(y: nat, x: nat, attr: nat)
    requires y + 1 < INT_LIMIT && x + 1 < INT_LIMIT
    ensures ReadsAs(CursorBytes(y, x), attr, [SetCursor(x, y)])
  {
    var row, col := Digits(y + 1), Digits(x + 1);
    FieldsOfPair(row, col);
    DecimalOfDigits(y + 1);
    DecimalOfDigits(x + 1);
    CursorFields(row, col, y, x, attr);
    Unchanged(attr, SetCursor(x, y));
    assert forall b | b in row + [SEMICOLON] + col :: IsBody(b);
    hide Digits, Decimal, Fields, Control, ReadsAs, AttrAfter, Sequence;
    SequenceReads(row + [SEMICOLON] + col, 'H' as int, attr, [row, col], [SetCursor(x, y)]);
  }

  lemma Unchanged(attr: nat, a: Action)
    requires a.SetAttribute? ==> a.attr == attr
    ensures AttrAfter(attr, [a]) == attr
  {
    assert [a][1..] == [];
  }

  /** Reverse video on and off are not known to the console: it sets the attribute it has. */
  lemma RenditionReads(n: nat, attr: nat)
    requires n == 7 || n == 27
    requires attr < 256
    ensures ReadsAs(Sequence(Digits(n), 'm' as int), attr, [SetAttribute(attr)])
  {
    FieldsOfOne(Digits(n));
    DecimalOfDigits(n);
    assert forall b | b in Digits(n) :: IsBody(b);
    RenditionFields(Digits(n), n, attr);
    Unchanged(attr, SetAttribute(attr));
    hide Digits, Decimal, Fields, Control, ReadsAs, AttrAfter, Sequence;
    SequenceReads(Digits(n), 'm' as int, attr, [Digits(n)], [SetAttribute(attr)]);
  }

  lemma FieldsOfOne(s: Bytes)
    requires AllDigits(s)
    ensures Fields(s) == [s]
  {
    FieldsOfDigits(s);
  }

  lemma RenditionFields(s: Bytes, n: nat, attr: nat)
    requires s != [] && Decimal(s) == n && n != 0 && !IsForeground(n) && !IsBackground(n)
    ensures Control('m' as int, Values([s]), attr) == [SetAttribute(attr)]
  {
    assert Values([s]) == [Some(n)];
    assert Codes([Some(n)]) == [n];
    IgnoredRendition(n, attr);
  }

  lemma IgnoredRendition(n: nat, attr: nat)
    requires n != 0 && !IsForeground(n) && !IsBackground(n)
    ensures Rendition(attr, [n]) == attr
  {
    assert [n][1..] == [] && [n][..0] == [];
    assert AfterReset([]) == ([], false);
    assert AfterReset([n]) == ([n], false);
    assert LastForeground([n], attr % 16) == LastForeground([], attr % 16) == attr % 16;
    assert LastBackground([n], attr / 16) == LastBackground([], attr / 16) == attr / 16;
  }

  /** Private modes with an unknown final are dropped. */
  lemma PrivateReads(n: nat, final: byte, attr: nat)
    requires n < INT_LIMIT && (final == 'h' as int || final == 'l' as int)
    ensures ReadsAs(PrivateBytes(n, final), attr, [])
  {
    FieldsOfPrivate(Digits(n));
    DecimalOfDigits(n);
    assert forall b | b in [QUESTION] + Digits(n) :: IsBody(b);
    assert Control(final, Values([Digits(n)]), attr) == [];
    hide Digits, Decimal, Fields, Control, ReadsAs, Sequence;
    SequenceReads([QUESTION] + Digits(n), final, attr, [Digits(n)], []);
  }

  /** Of the numbers that erase a display only 2 is known to the console. */
  lemma EraseReads(n: nat, attr: nat)
    requires n < INT_LIMIT
    ensures ReadsAs(Sequence(Digits(n), 'J' as int), attr, if n == 2 then [ClearScreen] else [])
  {
    FieldsOfOne(Digits(n));
    DecimalOfDigits(n);
    assert forall b | b in Digits(n) :: IsBody(b);
    assert Values([Digits(n)]) == [Some(n)];
    var actions := if n == 2 then [ClearScreen] else [];
    assert Control('J' as int, [Some(n)], attr) == actions;
    Unchanged(attr, ClearScreen);
    assert AttrAfter(attr, []) == attr;
    hide Digits, Decimal, Fields, Control, ReadsAs, AttrAfter, Sequence;
    SequenceReads(Digits(n), 'J' as int, attr, [Digits(n)], actions);
  }

  /** Both finals that set the cursor do, and what is left out or zero counts as one. */
  lemma CursorDefaults(attr: nat, y: nat, x: nat, final: byte)
    requires final == 'H' as int || final == 'f' as int
    ensures Control(final, [], attr) == Control(final, [None], attr) == Control(final, [Some(0), Some(0)], attr) == [SetCursor(0, 0)]
    ensures Control(final, [Some(y + 1)], attr) == [SetCursor(0, y)]
    ensures Control(final, [None, Some(x + 1)], attr) == [SetCursor(x, 0)]
    ensures Control(final, [Some(y + 1), Some(x + 1)], attr) == [SetCursor(x, y)]
  {
  }

  /** One colour: foregrounds keep the background and backgrounds the foreground; 0 resets both. */
  lemma ColourReads(attr: nat, c: nat)
    requires attr < 256 && c < 8
    ensures Rendition(attr, [30 + c]) == attr / 16 * 16 + c && Rendition(attr, [90 + c]) == attr / 16 * 16 + 8 + c
    ensures Rendition(attr, [40 + c]) == attr % 16 + 16 * c && Rendition(attr, [100 + c]) == attr % 16 + 16 * (8 + c)
    ensures Rendition(attr, [0]) == 7
  {
    hide Rendition;
    OneColour(attr, 30 + c);
    OneColour(attr, 90 + c);
    OneColour(attr, 40 + c);
    OneColour(attr, 100 + c);
    ResetReads(attr);
    assert (30 + c) % 10 == (90 + c) % 10 == (40 + c) % 10 == (100 + c) % 10 == c;
  }

  /** Without a parameter a rendition is reset, and an empty parameter resets what came before it. */
  lemma EmptyRenditionResets(attr: nat)
    requires attr < 256
    ensures Control('m' as int, [None], attr) == Control('m' as int, [Some(0)], attr) == [SetAttribute(7)]
    ensures Control('m' as int, [Some(31), None], attr) == [SetAttribute(7)]
  {
    assert Codes([None]) == [0] && Codes([Some(0)]) == [0] && Codes([Some(31), None]) == [31] + [0];
    Console.RenditionsInOrder(attr, [31], 0);
    ResetReads(attr);
    ResetReads(Rendition(attr, [31]));
    hide Rendition, Codes;
  }

  lemma ResetReads(attr: nat)
    ensures Rendition(attr, [0]) == 7
  {
    assert AfterReset([]) == ([], false) && [0][1..] == [];
    assert AfterReset([0]) == ([], true);
  }

  lemma OneColour(attr: nat, p: nat)
    requires attr < 256 && (IsForeground(p) || IsBackground(p))
    ensures Rendition(attr, [p]) == (if IsForeground(p) then Colour(p) else attr % 16) + 16 * (if IsBackground(p) then Colour(p) else attr / 16)
  {
    assert [p][1..] == [] && [p][..0] == [];
    assert AfterReset([]) == ([], false);
    assert AfterReset([p]) == ([p], false);
    assert LastForeground([p], attr % 16) == if IsForeground(p) then Colour(p) else attr % 16;
    assert LastBackground([p], attr / 16) == if IsBackground(p) then Colour(p) else attr / 16;
  }

  /** A line feed is printed behind a carriage return, any other character as it is. */
  lemma GlyphsOf(b: byte)
    ensures Printed([b]) == [Glyph(if b == 0x0A then [0x0D, 0x0A] else [b])]
  {
    assert Print(b) == Glyph(if b == 0x0A then [0x0D, 0x0A] else [b]);
  }

  lemma EmptyReads(attr: nat)
    ensures ReadsAs([], attr, [])
  {
  }

  lemma {:induction false} OpReads(op: Op, attr: nat)
    requires Supported(op) && attr < 256
    ensures ReadsAs(Bytes1(op), attr, Calls(op, attr))
    decreases op
  {
    hide ReadsAs;
    match op
    case SetPos(y, x) =>
      CursorReads(y, x, attr);
    case AddStr(str) =>
      TextReads(str, attr);
    case Highlight(ops) =>
      RenditionReads(7, attr);
      OpsRead(ops, attr);
      RenditionReads(27, attr);
      var on, off := Sequence(Digits(7), 'm' as int), Sequence(Digits(27), 'm' as int);
      ReadsInTurn(on, BytesOf(ops), attr, [SetAttribute(attr)], CallsOf(ops, attr));
      ReadsInTurn(on + BytesOf(ops), off, attr, [SetAttribute(attr)] + CallsOf(ops, attr), [SetAttribute(attr)]);
  }

  lemma {:induction false} OpsRead(ops: seq<Op>, attr: nat)
    requires (forall o | o in ops :: Supported(o)) && attr < 256
    ensures ReadsAs(BytesOf(ops), attr, CallsOf(ops, attr))
    decreases ops
  {
    if ops == [] {
      EmptyReads(attr);
    } else {
      OpReads(ops[0], attr);
      OpsRead(ops[1..], attr);
      ReadsInTurn(Bytes1(ops[0]), BytesOf(ops[1..]), attr, Calls(ops[0], attr), CallsOf(ops[1..], attr));
    }
  }

  lemma TextReads(str: Bytes, attr: nat)
    requires Printable(str)
    ensures ReadsAs(str, attr, Printed(str))
  {
    TextMeaning(str, attr);
    PrintedKeeps(str, attr);
  }

  lemma {:induction false} PrintedKeeps(s: Bytes, attr: nat)
    ensures AttrAfter(attr, Printed(s)) == attr
  {
    if s != [] {
      PrintedKeeps(s[1..], attr);
      assert Printed(s)[1..] == Printed(s[1..]);
    }
  }

  // ---- The cursor ----------------------------------------------------------------------------

  /** Where a call leaves the cursor of the device, on an unwrapped line. */
  function Moved(p: Pos, a: Action): Pos {
    match a
    case SetCursor(column, row) => Pos(row, column)
    case ClearScreen => Pos(0, 0)
    case Glyph(units) => Pos(p.y, p.x + |units|)
    case SetAttribute(_) => p
  }

  function CursorAfter(p: Pos, actions: seq<Action>): Pos
    decreases |actions|
  {
    if actions == [] then p else CursorAfter(Moved(p, actions[0]), actions[1..])
  }

  lemma {:induction false} CursorAppend(p: Pos, a: seq<Action>, b: seq<Action>)
    ensures CursorAfter(p, a + b) == CursorAfter(CursorAfter(p, a), b)
    decreases |a|
  {
    if a == [] {
      assert a + b == b;
    } else {
      CursorAppend(Moved(p, a[0]), a[1..], b);
      assert (a + b)[1..] == a[1..] + b;
    }
  }

  lemma {:induction false} CursorOverText(p: Pos, s: Bytes)
    requires Printable(s)
    ensures CursorAfter(p, Printed(s)) == Pos(p.y, p.x + |s|)
    decreases |s|
  {
    if s != [] {
      assert s[0] in s && forall b | b in s[1..] :: b in s;
      CursorOverText(Pos(p.y, p.x + 1), s[1..]);
      assert Printed(s)[0] == Glyph([s[0]]) && Printed(s)[1..] == Printed(s[1..]);
    }
  }

  lemma CursorOverAttribute(p: Pos, attr: nat)
    ensures CursorAfter(p, [SetAttribute(attr)]) == p
  {
    assert [SetAttribute(attr)][1..] == [];
  }

  /** Started at the same place, device and adapter stay together. */
  lemma {:induction false} CursorFollows(p: Pos, op: Op, attr: nat)
    requires Supported(op)
    ensures CursorAfter(p, Calls(op, attr)) == Track(p, op)
    decreases op
  {
    match op
    case SetPos(y, x) =>
      assert [SetCursor(x, y)][1..] == [];
    case AddStr(str) =>
      CursorOverText(p, str);
    case Highlight(ops) =>
      var on := [SetAttribute(attr)];
      CursorFollowsAll(p, ops, attr);
      CursorOverAttribute(p, attr);
      CursorOverAttribute(TrackAll(p, ops), attr);
      CursorAppend(p, on, CallsOf(ops, attr));
      CursorAppend(p, on + CallsOf(ops, attr), on);
  }

  lemma {:induction false} CursorFollowsAll(p: Pos, ops: seq<Op>, attr: nat)
    requires forall o | o in ops :: Supported(o)
    ensures CursorAfter(p, CallsOf(ops, attr)) == TrackAll(p, ops)
    decreases ops
  {
    if ops != [] {
      CursorFollows(p, ops[0], attr);
      CursorFollowsAll(Track(p, ops[0]), ops[1..], attr);
      CursorAppend(p, Calls(ops[0], attr), CallsOf(ops[1..], attr));
    }
  }

  predicate Positions(op: Op)
    decreases op
  {
    op.SetPos? || (op.Highlight? && PositionsAny(op.ops))
  }

  predicate PositionsAny(ops: seq<Op>)
    decreases ops
  {
    ops != [] && (Positions(ops[0]) || PositionsAny(ops[1..]))
  }

  lemma {:induction false} TrackForgets(p: Pos, q: Pos, op: Op)
    ensures Track(p, op) == Track(q, op) <==> p == q || Positions(op)
    decreases op
  {
    if op.Highlight? {
      TrackForgetsAll(p, q, op.ops);
    }
  }

  lemma {:induction false} TrackForgetsAll(p: Pos, q: Pos, ops: seq<Op>)
    ensures TrackAll(p, ops) == TrackAll(q, ops) <==> p == q || PositionsAny(ops)
    decreases ops
  {
    if ops != [] {
      TrackForgets(p, q, ops[0]);
      TrackForgetsAll(Track(p, ops[0]), Track(q, ops[0]), ops[1..]);
    }
  }

  /**
    The tracked position is the cursor of the device exactly when both started together or some
    operation has set the position: a clear, which homes only the device, shows until then.
   */
  lemma TrackedPositionIsCursor(device: Pos, tracked: Pos, ops: seq<Op>, attr: nat)
    requires forall o | o in ops :: Supported(o)
    ensures CursorAfter(device, CallsOf(ops, attr)) == TrackAll(tracked, ops) <==> device == tracked || PositionsAny(ops)
  {
    CursorFollowsAll(device, ops, attr);
    TrackForgetsAll(device, tracked, ops);
  }

  /** A clear at (3, 5) and one character: the device is at (0, 1), the tracked position at (3, 6). */
  lemma ClearHomesDeviceOnly(attr: nat)
    ensures var ops := [AddStr(['a' as int])];
            && CursorAfter(Pos(3, 5), [SetCursor(0, 0)] + CallsOf(ops, attr)) == Pos(0, 1)
            && TrackAll(Pos(3, 5), ops) == Pos(3, 6)
  {
    var ops := [AddStr(['a' as int])];
    CursorAppend(Pos(3, 5), [SetCursor(0, 0)], CallsOf(ops, attr));
    assert [SetCursor(0, 0)][1..] == [] && CursorAfter(Pos(3, 5), [SetCursor(0, 0)]) == Pos(0, 0);
    CursorFollowsAll(Pos(0, 0), ops, attr);
    assert ops[1..] == [] && TrackAll(Pos(0, 0), ops) == Pos(0, 1);
  }

  /** Whatever was drawn, a refresh leaves the device where the adapter tracks it. */
  lemma RefreshRealigns(device: Pos, actions: seq<Action>, p: Pos)
    ensures CursorAfter(device, actions + [SetCursor(p.x, p.y)]) == p
  {
    CursorAppend(device, actions, [SetCursor(p.x, p.y)]);
    assert [SetCursor(p.x, p.y)][1..] == [];
  }

  // ---- A frame --------------------------------------------------------------------------------

  function HomeBytes(): Bytes { Sequence([], 'H' as int) }

  lemma HomeReads(attr: nat)
    ensures ReadsAs(HomeBytes(), attr, [SetCursor(0, 0)])
  {
    assert Fields([]) == [[]];
    assert Values([[]]) == [None];
    SequenceMeaning([], 'H' as int, attr);
    Unchanged(attr, SetCursor(0, 0));
  }

  /** What refresh writes for a buffer and a tracked position. */
  function FrameBytes(buf: Bytes, p: Pos): Bytes {
    (if buf == [] then [] else PrivateBytes(25, 'l' as int) + buf) + CursorBytes(p.y, p.x) + PrivateBytes(25, 'h' as int)
  }

  lemma FrameReads(buf: Bytes, p: Pos, attr: nat, actions: seq<Action>)
    requires ReadsAs(buf, attr, actions)
    requires p.y + 1 < INT_LIMIT && p.x + 1 < INT_LIMIT
    ensures ReadsAs(FrameBytes(buf, p), attr, actions + [SetCursor(p.x, p.y)])
  {
    PrivateReads(25, 'l' as int, attr);
    PrivateReads(25, 'h' as int, attr);
    CursorReads(p.y, p.x, attr);
    hide CursorBytes, PrivateBytes;
    var hidden := if buf == [] then [] else PrivateBytes(25, 'l' as int) + buf;
    assert ReadsAs(hidden, attr, actions) by {
      if buf != [] {
        ReadsInTurn(PrivateBytes(25, 'l' as int), buf, attr, [], actions);
        assert [] + actions == actions;
      }
    }
    hide ReadsAs;
    ReadsInTurn(hidden, CursorBytes(p.y, p.x), attr, actions, [SetCursor(p.x, p.y)]);
    ReadsInTurn(hidden + CursorBytes(p.y, p.x), PrivateBytes(25, 'h' as int), attr, actions + [SetCursor(p.x, p.y)], []);
    assert actions + [SetCursor(p.x, p.y)] + [] == actions + [SetCursor(p.x, p.y)];
  }

  lemma FrameParts(out: Bytes, buf: Bytes, p: Pos)
    ensures var end := CursorBytes(p.y, p.x) + PrivateBytes(25, 'h' as int);
            out + FrameBytes(buf, p) == (if buf == [] then out else out + PrivateBytes(25, 'l' as int) + buf) + end
  {
    hide CursorBytes, PrivateBytes;
  }

  // ---- What a serial terminal shows ---------------------------------------------------------------

  /** Reverse video after an operation: a highlighted block leaves it off. */
  function ReverseAfter(ops: seq<Op>, reverse: bool): bool
    decreases |ops|
  {
    if ops == [] then reverse else ReverseAfter(ops[1..], if ops[0].Highlight? then false else reverse)
  }

  /** The characters of an operation as they are drawn, when reverse video is on or off before it. */
  function Drawn(op: Op, reverse: bool, visible: bool): seq<Terminal.Mark>
    decreases op
  {
    match op
    case SetPos(_, _) => []
    case AddStr(str) => Terminal.Characters(str, reverse, visible)
    case Highlight(ops) => DrawnAll(ops, true, visible)
  }

  function DrawnAll(ops: seq<Op>, reverse: bool, visible: bool): seq<Terminal.Mark>
    decreases ops
  {
    if ops == [] then []
    else Drawn(ops[0], reverse, visible) + DrawnAll(ops[1..], if ops[0].Highlight? then false else reverse, visible)
  }

  lemma SmallDigits()
    ensures Digits(2) == [0x32] && Digits(7) == [0x37] && Digits(27) == [0x32, 0x37] && Digits(25) == [0x32, 0x35]
    ensures Digits(1049) == [0x31, 0x30, 0x34, 0x39]
  {
    assert Digits(104) == Digits(10) + [0x34] && Digits(10) == Digits(1) + [0x30] && Digits(1) == [0x31];
    assert Digits(1049) == Digits(104) + [0x39];
  }

  /** The bytes of the operations, one by one. */
  lemma OperationsSend()
    ensures Bytes1(Highlight([AddStr(['x' as int])])) == [0x1B, 0x5B, 0x37, 0x6D, 0x78, 0x1B, 0x5B, 0x32, 0x37, 0x6D]
    ensures Bytes1(SetPos(1, 6)) == [0x1B, 0x5B, 0x32, 0x3B, 0x37, 0x48]
    ensures FrameBytes([], Pos(1, 6)) == Bytes1(SetPos(1, 6)) + [0x1B, 0x5B, 0x3F, 0x32, 0x35, 0x68]
    ensures HomeBytes() == [0x1B, 0x5B, 0x48]
  {
    SmallDigits();
    var ops := [AddStr(['x' as int])];
    assert ops[1..] == [] && BytesOf([]) == [] && BytesOf(ops) == ['x' as int] + [];
    assert Sequence(Digits(7), 'm' as int) == [0x1B, 0x5B, 0x37, 0x6D];
    assert Sequence(Digits(27), 'm' as int) == [0x1B, 0x5B, 0x32, 0x37, 0x6D];
    assert PrivateBytes(25, 'h' as int) == [0x1B, 0x5B, 0x3F, 0x32, 0x35, 0x68];
    assert [] + CursorBytes(1, 6) == CursorBytes(1, 6);
  }

  /** Reverse video is switched by these two, and by nothing else that the adapter sends. */
  lemma RenditionLeads(v: Terminal.Vt, on: bool)
    requires v.mode == Terminal.Text
    ensures Terminal.Leads(v, Sequence(Digits(if on then 7 else 27), 'm' as int), v.(reverse := on), [])
  {
    SmallDigits();
    Terminal.FeedSequence(v, Digits(if on then 7 else 27), 'm' as int);
    hide Terminal.Feed, Sequence, Digits;
  }

  lemma CursorLeads(v: Terminal.Vt, y: nat, x: nat)
    requires v.mode == Terminal.Text
    ensures Terminal.Leads(v, CursorBytes(y, x), v, [])
  {
    var body := Digits(y + 1) + [SEMICOLON] + Digits(x + 1);
    assert forall b | b in body :: 0x30 <= b <= 0x3B;
    Terminal.FeedSequence(v, body, 'H' as int);
    hide Terminal.Feed, Sequence, Digits;
  }

  lemma {:induction false} OpShows(v: Terminal.Vt, op: Op)
    requires v.mode == Terminal.Text && Supported(op)
    ensures Terminal.Leads(v, Bytes1(op), v.(reverse := if op.Highlight? then false else v.reverse),
                           Drawn(op, v.reverse, v.visible))
    decreases op
  {
    hide Terminal.Leads, Sequence, CursorBytes, Terminal.Characters;
    match op
    case SetPos(y, x) =>
      CursorLeads(v, y, x);
    case AddStr(str) =>
      Terminal.FeedText(v, str);
    case Highlight(ops) =>
      var on, off := v.(reverse := true), v.(reverse := false);
      var first, last := Sequence(Digits(7), 'm' as int), Sequence(Digits(27), 'm' as int);
      var marks := DrawnAll(ops, true, v.visible);
      var inside := on.(reverse := ReverseAfter(ops, true));
      RenditionLeads(v, true);
      OpsShow(on, ops);
      RenditionLeads(inside, false);
      Terminal.LeadsOn(v, first, on, [], BytesOf(ops), inside, marks);
      Terminal.LeadsOn(v, first + BytesOf(ops), inside, [] + marks, last, off, []);
      assert [] + marks + [] == marks;
  }

  lemma {:induction false} OpsShow(v: Terminal.Vt, ops: seq<Op>)
    requires v.mode == Terminal.Text && forall o | o in ops :: Supported(o)
    ensures Terminal.Leads(v, BytesOf(ops), v.(reverse := ReverseAfter(ops, v.reverse)), DrawnAll(ops, v.reverse, v.visible))
    decreases ops
  {
    if ops != [] {
      hide Terminal.Leads, Supported;
      var mid := v.(reverse := if ops[0].Highlight? then false else v.reverse);
      OpShows(v, ops[0]);
      OpsShow(mid, ops[1..]);
      Terminal.LeadsOn(v, Bytes1(ops[0]), mid, Drawn(ops[0], v.reverse, v.visible),
                       BytesOf(ops[1..]), v.(reverse := ReverseAfter(ops, v.reverse)), DrawnAll(ops[1..], mid.reverse, v.visible));
    }
  }

  /** The characters of some operations, reversed exactly inside of highlighted blocks. */
  function Marked(op: Op, inside: bool, visible: bool): seq<Terminal.Mark>
    decreases op
  {
    match op
    case SetPos(_, _) => []
    case AddStr(str) => Terminal.Characters(str, inside, visible)
    case Highlight(ops) => MarkedAll(ops, true, visible)
  }

  function MarkedAll(ops: seq<Op>, inside: bool, visible: bool): seq<Terminal.Mark>
    decreases ops
  {
    if ops == [] then [] else Marked(ops[0], inside, visible) + MarkedAll(ops[1..], inside, visible)
  }

  /** No text stands in a highlighted block behind the end of a block inside of it. */
  predicate NothingBehindInner(op: Op)
    decreases op
  {
    op.Highlight? ==> Undisturbed(op.ops, true, false)
  }

  /** Whether text may come next: not in a block once one inside of it has ended. */
  predicate Undisturbed(ops: seq<Op>, inside: bool, ended: bool)
    decreases ops
  {
    ops != [] ==>
    && (ops[0].AddStr? && ops[0].str != [] ==> !(inside && ended))
    && NothingBehindInner(ops[0])
    && Undisturbed(ops[1..], inside, ended || ops[0].Highlight?)
  }

  lemma {:induction false} SameCount(op: Op, a: bool, b: bool, visible: bool)
    ensures |Drawn(op, a, visible)| == |Marked(op, b, visible)|
    decreases op
  {
    if op.Highlight? {
      SameCountAll(op.ops, true, true, visible);
    }
  }

  lemma {:induction false} SameCountAll(ops: seq<Op>, a: bool, b: bool, visible: bool)
    ensures |DrawnAll(ops, a, visible)| == |MarkedAll(ops, b, visible)|
    decreases ops
  {
    if ops != [] {
      SameCount(ops[0], a, b, visible);
      SameCountAll(ops[1..], if ops[0].Highlight? then false else a, b, visible);
    }
  }

  lemma SameParts<T>(a: seq<T>, b: seq<T>, c: seq<T>, d: seq<T>)
    requires |a| == |c|
    ensures a + b == c + d <==> a == c && b == d
  {
    if a + b == c + d {
      assert a == (a + b)[..|a|] && c == (c + d)[..|a|];
      assert b == (a + b)[|a|..] && d == (c + d)[|a|..];
    }
  }

  lemma {:induction false} TextIsMarked(str: Bytes, a: bool, b: bool, visible: bool)
    ensures Terminal.Characters(str, a, visible) == Terminal.Characters(str, b, visible) <==> str == [] || a == b
  {
    if str != [] {
      assert Terminal.Characters(str, a, visible)[0] == Terminal.Drawn(str[0], a, visible);
      assert Terminal.Characters(str, b, visible)[0] == Terminal.Drawn(str[0], b, visible);
    }
  }

  lemma {:induction false} OpIsMarked(op: Op, inside: bool, ended: bool, visible: bool)
    ensures Drawn(op, inside && !ended, visible) == Marked(op, inside, visible)
            <==> (op.AddStr? && op.str != [] ==> !(inside && ended)) && NothingBehindInner(op)
    decreases op
  {
    match op
    case SetPos(_, _) =>
    case AddStr(str) =>
      TextIsMarked(str, inside && !ended, inside, visible);
    case Highlight(ops) =>
      OpsAreMarked(ops, true, false, visible);
  }

  lemma {:induction false} OpsAreMarked(ops: seq<Op>, inside: bool, ended: bool, visible: bool)
    ensures DrawnAll(ops, inside && !ended, visible) == MarkedAll(ops, inside, visible) <==> Undisturbed(ops, inside, ended)
    decreases ops
  {
    if ops != [] {
      OpIsMarked(ops[0], inside, ended, visible);
      OpsAreMarked(ops[1..], inside, ended || ops[0].Highlight?, visible);
      SameCount(ops[0], inside && !ended, inside, visible);
      var next := if ops[0].Highlight? then false else inside && !ended;
      assert next == (inside && !(ended || ops[0].Highlight?));
      SameParts(Drawn(ops[0], inside && !ended, visible), DrawnAll(ops[1..], next, visible),
                Marked(ops[0], inside, visible), MarkedAll(ops[1..], inside, visible));
    }
  }

  /**
    Started with reverse video off, exactly the characters inside of highlighted blocks are shown
    reversed, if and only if no text follows an inner block within an outer one.
   */
  lemma HighlightsShow(v: Terminal.Vt, ops: seq<Op>)
    requires v.mode == Terminal.Text && !v.reverse && forall o | o in ops :: Supported(o)
    ensures Terminal.Feed(v, BytesOf(ops)).0 == v.(reverse := ReverseAfter(ops, false)) && !ReverseAfter(ops, false)
    ensures Terminal.Feed(v, BytesOf(ops)).1 == MarkedAll(ops, false, v.visible) <==> Undisturbed(ops, false, false)
  {
    OpsShow(v, ops);
    OpsAreMarked(ops, false, false, v.visible);
    ReverseStaysOff(ops);
    hide Terminal.Feed, BytesOf, DrawnAll, MarkedAll, Undisturbed;
  }

  lemma {:induction false} ReverseStaysOff(ops: seq<Op>)
    ensures !ReverseAfter(ops, false)
    decreases |ops|
  {
    if ops != [] {
      ReverseStaysOff(ops[1..]);
    }
  }

  /** Blocks that hold no other blocks are always shown right. */
  lemma {:induction false} FlatBlocksShow(ops: seq<Op>, ended: bool)
    requires forall o | o in ops :: o.Highlight? ==> forall i | i in o.ops :: !i.Highlight?
    ensures Undisturbed(ops, false, ended)
    decreases |ops|
  {
    if ops != [] {
      assert ops[0] in ops && forall o | o in ops[1..] :: o in ops;
      if ops[0].Highlight? {
        NoInnerBlocks(ops[0].ops);
      }
      FlatBlocksShow(ops[1..], ended || ops[0].Highlight?);
    }
  }

  lemma {:induction false} NoInnerBlocks(ops: seq<Op>)
    requires forall o | o in ops :: !o.Highlight?
    ensures Undisturbed(ops, true, false)
    decreases |ops|
  {
    if ops != [] {
      assert ops[0] in ops && forall o | o in ops[1..] :: o in ops;
      NoInnerBlocks(ops[1..]);
    }
  }

  /** The failing input: behind the end of an inner block, text of the outer one is plain. */
  lemma InnerBlockEndsOuter()
    ensures var ops := [Highlight([Highlight([]), AddStr(['a' as int])])];
            Terminal.Feed(Terminal.PLAIN, BytesOf(ops)).1 == [Terminal.Drawn('a' as int, false, true)]
  {
    var inner := [Highlight([]), AddStr(['a' as int])];
    var ops := [Highlight(inner)];
    OpsShow(Terminal.PLAIN, ops);
    assert inner[1..] == [AddStr(['a' as int])] && inner[1..][1..] == [] && ops[1..] == [];
    assert DrawnAll(inner[1..], false, true) == Terminal.Characters(['a' as int], false, true);
    assert DrawnAll(inner, true, true) == Terminal.Characters(['a' as int], false, true);
    assert DrawnAll(ops, false, true) == Terminal.Characters(['a' as int], false, true);
    hide Terminal.Feed, BytesOf;
  }

  lemma PrivateLeads(v: Terminal.Vt, n: nat, on: bool)
    requires v.mode == Terminal.Text && (n == 25 || n == 1049)
    ensures Terminal.Leads(v, PrivateBytes(n, (if on then 'h' else 'l') as int),
                           if n == 25 then v.(visible := on) else v.(alternate := on), [])
  {
    SmallDigits();
    var final := (if on then 'h' else 'l') as int;
    Terminal.FeedSequence(v, [QUESTION] + Digits(n), final);
    hide Terminal.Feed, Sequence, Digits;
  }

  /** A frame is drawn with the cursor hidden, and shows it in the end. */
  lemma FrameShows(v: Terminal.Vt, buf: Bytes, p: Pos, w: Terminal.Vt, marks: seq<Terminal.Mark>)
    requires v.mode == w.mode == Terminal.Text
    requires Terminal.Leads(v.(visible := false), buf, w, marks)
    ensures if buf == [] then Terminal.Leads(v, FrameBytes(buf, p), v.(visible := true), [])
            else Terminal.Leads(v, FrameBytes(buf, p), w.(visible := true), marks)
  {
    var hidden := if buf == [] then [] else PrivateBytes(25, 'l' as int) + buf;
    var there := if buf == [] then v else w;
    var shown := if buf == [] then [] else marks;
    if buf == [] {
      assert Terminal.Leads(v, [], v, []);
    } else {
      PrivateLeads(v, 25, false);
      Terminal.LeadsOn(v, PrivateBytes(25, 'l' as int), v.(visible := false), [], buf, w, marks);
      assert [] + marks == marks;
    }
    CursorLeads(there, p.y, p.x);
    PrivateLeads(there, 25, true);
    hide Terminal.Leads, PrivateBytes, CursorBytes;
    Terminal.LeadsOn(v, hidden, there, shown, CursorBytes(p.y, p.x), there, []);
    Terminal.LeadsOn(v, hidden + CursorBytes(p.y, p.x), there, shown + [], PrivateBytes(25, 'h' as int), there.(visible := true), []);
    assert shown + [] + [] == shown;
  }

  lemma StartShows()
    ensures Terminal.Leads(Terminal.PLAIN, PrivateBytes(1049, 'h' as int) + Sequence(Digits(2), 'J' as int) + HomeBytes(),
                           Terminal.PLAIN.(alternate := true), [Terminal.Erased])
  {
    var v := Terminal.PLAIN.(alternate := true);
    SmallDigits();
    PrivateLeads(Terminal.PLAIN, 1049, true);
    Terminal.FeedSequence(v, Digits(2), 'J' as int);
    Terminal.FeedSequence(v, [], 'H' as int);
    assert v.Execute([0x32], 'J' as int) == (v, [Terminal.Erased]) && v.Execute([], 'H' as int) == (v, []);
    hide Terminal.Leads, PrivateBytes, Sequence, Terminal.Vt.Execute;
    Terminal.LeadsOn(Terminal.PLAIN, PrivateBytes(1049, 'h' as int), v, [], Sequence(Digits(2), 'J' as int), v, [Terminal.Erased]);
    Terminal.LeadsOn(Terminal.PLAIN, PrivateBytes(1049, 'h' as int) + Sequence(Digits(2), 'J' as int), v, [] + [Terminal.Erased],
                     HomeBytes(), v, []);
    assert [] + [Terminal.Erased] + [] == [Terminal.Erased];
  }

  function CloseBytes(): Bytes {
    Sequence(Digits(0), 'm' as int) + PrivateBytes(25, 'h' as int) + PrivateBytes(1049, 'l' as int)
  }

  lemma CloseShows(v: Terminal.Vt)
    requires v.mode == Terminal.Text
    ensures Terminal.Leads(v, CloseBytes(), Terminal.PLAIN, [])
  {
    var plain := v.(reverse := false);
    var shown := plain.(visible := true);
    Terminal.FeedSequence(v, Digits(0), 'm' as int);
    PrivateLeads(plain, 25, true);
    PrivateLeads(shown, 1049, false);
    assert v.Execute([0x30], 'm' as int) == (plain, []) && Digits(0) == [0x30];
    hide Terminal.Leads, PrivateBytes, Sequence, Terminal.Vt.Execute;
    Terminal.LeadsOn(v, Sequence(Digits(0), 'm' as int), plain, [], PrivateBytes(25, 'h' as int), shown, []);
    Terminal.LeadsOn(v, Sequence(Digits(0), 'm' as int) + PrivateBytes(25, 'h' as int), shown, [] + [],
                     PrivateBytes(1049, 'l' as int), Terminal.PLAIN, []);
    var none: seq<Terminal.Mark> := [];
    assert none + none + none == none;
  }

  class TerminalAdapter {
    var curY: nat
    var curX: nat
    var buf: Bytes

    /** Everything written to standard output. */
    var out: Bytes

    ghost function Tracked(): Pos
      reads this
    {
      Pos(curY, curX)
    }

    constructor ()
      ensures Tracked() == Pos(0, 0) && buf == []
      ensures Terminal.Leads(Terminal.PLAIN, out, Terminal.PLAIN.(alternate := true), [Terminal.Erased])
    {
      curY, curX, buf := 0, 0, [];
      out := PrivateBytes(1049, 'h' as int) + Sequence(Digits(2), 'J' as int) + HomeBytes();
      new;
      StartShows();
      hide *;
    }

    /** Attributes off, cursor shown, and back from the alternate screen, whatever was drawn. */
    method Close()
      modifies this`out
      ensures exists s :: out == old(out) + s
                && forall v: Terminal.Vt | v.mode == Terminal.Text :: Terminal.Leads(v, s, Terminal.PLAIN, [])
    {
      ghost var s := CloseBytes();
      forall v: Terminal.Vt | v.mode == Terminal.Text
        ensures Terminal.Leads(v, s, Terminal.PLAIN, [])
      {
        CloseShows(v);
      }
      hide Terminal.Leads;
      RawWrite(CloseBytes());
    }

    method RawWrite(str: Bytes)
      modifies this`out
      ensures out == old(out) + str
    {
      out := out + str;
    }

    /** Drops what was buffered and homes the device, but not the tracked position. */
    method Clear()
      modifies this`buf
      ensures forall attr: nat :: ReadsAs(buf, attr, [SetCursor(0, 0)])
    {
      buf := [];
      buf := buf + HomeBytes();
      forall attr: nat
        ensures ReadsAs(buf, attr, [SetCursor(0, 0)])
      {
        HomeReads(attr);
        assert [] + HomeBytes() == HomeBytes();
      }
    }

    method Refresh()
      modifies this`buf, this`out
      ensures buf == [] && out == old(out) + FrameBytes(old(buf), Tracked())
    {
      hide CursorBytes, PrivateBytes;
      FrameParts(old(out), buf, Tracked());
      if |buf| > 0 {
        RawWrite(PrivateBytes(25, 'l' as int));
        RawWrite(buf);
        buf := [];
      }
      RawWrite(CursorBytes(curY, curX) + PrivateBytes(25, 'h' as int));
    }

    method MoveTo(y: nat, x: nat)
      modifies this`curY, this`curX, this`buf
      ensures buf == old(buf) + CursorBytes(y, x) && Tracked() == Pos(y, x)
    {
      curY := y;
      curX := x;
      buf := buf + CursorBytes(y, x);
    }

    method AddString(str: Bytes)
      modifies this`curX, this`buf
      ensures buf == old(buf) + str && Tracked() == Pos(old(curY), old(curX) + |str|)
    {
      buf := buf + str;
      curX := curX + |str|;
    }

    /** Switches the highlight on, runs the block, and switches it off. */
    method WithHighlight(block: seq<Op>)
      modifies this`curY, this`curX, this`buf
      ensures buf == old(buf) + Bytes1(Highlight(block)) && Tracked() == Track(old(Tracked()), Highlight(block))
      decreases Highlight(block), 0
    {
      ghost var on, off := Sequence(Digits(7), 'm' as int), Sequence(Digits(27), 'm' as int);
      buf := buf + Sequence(Digits(7), 'm' as int);
      ApplyAll(block);
      buf := buf + Sequence(Digits(27), 'm' as int);
      assert old(buf) + on + BytesOf(block) + off == old(buf) + (on + BytesOf(block) + off);
    }

    method Apply(op: Op)
      modifies this`curY, this`curX, this`buf
      ensures buf == old(buf) + Bytes1(op) && Tracked() == Track(old(Tracked()), op)
      decreases op, 1
    {
      match op
      case SetPos(y, x) => MoveTo(y, x);
      case AddStr(str) => AddString(str);
      case Highlight(ops) => WithHighlight(ops);
    }

    method ApplyAll(ops: seq<Op>)
      modifies this`curY, this`curX, this`buf
      ensures buf == old(buf) + BytesOf(ops) && Tracked() == TrackAll(old(Tracked()), ops)
      decreases ops, 2
    {
      if ops != [] {
        Apply(ops[0]);
        ApplyAll(ops[1..]);
        assert old(buf) + (Bytes1(ops[0]) + BytesOf(ops[1..])) == old(buf) + Bytes1(ops[0]) + BytesOf(ops[1..]);
      }
    }

    /**
      Operations, refresh, and the console at the other end of the line; what was buffered before,
      nothing or a clear, comes first.
     */
    method Draw(ops: seq<Op>, driver: Console.Driver, ghost pending: seq<Action>)
      requires ReadsAs(buf, driver.attr, pending) && (forall o | o in ops :: Supported(o))
      requires TrackAll(Tracked(), ops).y + 1 < INT_LIMIT && TrackAll(Tracked(), ops).x + 1 < INT_LIMIT
      requires driver.Valid() && driver.ansiState == Console.Normal
      modifies this, driver, driver.csiParams
      ensures buf == [] && Tracked() == TrackAll(old(Tracked()), ops)
      ensures driver.Valid() && driver.ansiState == Console.Normal
      ensures driver.calls == old(driver.calls) + (pending + CallsOf(ops, old(driver.attr))) + [SetCursor(curX, curY)]
      ensures driver.attr == old(driver.attr)
      ensures out == old(out) + FrameBytes(old(buf) + BytesOf(ops), Tracked())
    {
      ghost var attr := driver.attr;
      OpsRead(ops, attr);
      ReadsInTurn(buf, BytesOf(ops), attr, pending, CallsOf(ops, attr));
      hide BytesOf, CallsOf, TrackAll, Supported, ReadsAs;
      ApplyAll(ops);
      Show(driver, pending + CallsOf(ops, attr));
    }

    /** Clear, draw, refresh: the frame of the editor. */
    method DrawCleared(ops: seq<Op>, driver: Console.Driver)
      requires forall o | o in ops :: Supported(o)
      requires TrackAll(Tracked(), ops).y + 1 < INT_LIMIT && TrackAll(Tracked(), ops).x + 1 < INT_LIMIT
      requires driver.Valid() && driver.ansiState == Console.Normal
      modifies this, driver, driver.csiParams
      ensures buf == [] && Tracked() == TrackAll(old(Tracked()), ops)
      ensures driver.Valid() && driver.ansiState == Console.Normal
      ensures driver.calls == old(driver.calls) + ([SetCursor(0, 0)] + CallsOf(ops, old(driver.attr))) + [SetCursor(curX, curY)]
      ensures driver.attr == old(driver.attr)
    {
      hide ReadsAs, TrackAll, CallsOf, Supported;
      Clear();
      Draw(ops, driver, [SetCursor(0, 0)]);
    }

    /** A refresh whose bytes the console reads at once. */
    method Show(driver: Console.Driver, ghost actions: seq<Action>)
      requires ReadsAs(buf, driver.attr, actions)
      requires curY + 1 < INT_LIMIT && curX + 1 < INT_LIMIT
      requires driver.Valid() && driver.ansiState == Console.Normal
      modifies this`buf, this`out, driver, driver.csiParams
      ensures buf == []
      ensures driver.Valid() && driver.ansiState == Console.Normal
      ensures driver.calls == old(driver.calls) + actions + [SetCursor(curX, curY)]
      ensures driver.attr == old(driver.attr)
      ensures out == old(out) + FrameBytes(old(buf), Tracked())
    {
      var sent := |out|;
      FrameReads(buf, Tracked(), driver.attr, actions);
      ghost var frame := FrameBytes(buf, Tracked());
      hide FrameBytes;
      Refresh();
      assert out[sent..] == frame;
      hide Meaning, Complete, Bounded, AttrAfter;
      driver.WriteStream(out[sent..]);
      Associative(old(driver.calls), actions, [SetCursor(curX, curY)]);
    }
  }
}
