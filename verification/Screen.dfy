/**
  One line of a terminal: printable characters, carriage return, line feed, and the three control
  functions the shell emits, CUF, CUB and EL (sections 8.3.20, 8.3.18 and 8.3.41 of ECMA-48).
 */
module Screen {

  import opened Wrappers
  import opened Words

  const CR: byte := 0x0D
  const LF: byte := 0x0A
  const BLANK: byte := 0x20

  datatype Mode = Ground | Escape | Csi(param: Option<nat>)

  /** The line up to its last written cell, the cursor column, and the state of the sequence parser. */
  datatype Tty = Tty(line: Bytes, col: nat, mode: Mode) {
    /** A character replaces the cell under the cursor; cells never written are blank. */
    function Put(b: byte): Tty {
      if col < |line| then Tty(line[col := b], col + 1, Ground)
      else Tty(line + seq(col - |line|, _ => BLANK) + [b], col + 1, Ground)
    }

    function Count(): nat
      requires mode.Csi?
    {
      if mode.param.Some? && mode.param.value > 0 then mode.param.value else 1
    }

    function Execute(final: byte): Tty
      requires mode.Csi?
    {
      if final == 'C' as int then Tty(line, col + Count(), Ground)
      else if final == 'D' as int then Tty(line, if col < Count() then 0 else col - Count(), Ground)
      else if final == 'K' as int && (mode.param == None || mode.param.value == 0) then
        Tty(if col < |line| then line[..col] else line, col, Ground)
      else Tty(line, col, Ground)
    }

    function Receive(b: byte): Tty {
      match mode
      case Ground =>
        if b == ESC then this.(mode := Escape)
        else if b == CR then this.(col := 0)
        else if b == LF then Tty([], 0, Ground)
        else if 0x20 <= b <= 0x7E then Put(b)
        else this
      case Escape =>
        this.(mode := if b == '[' as int then Csi(None) else Ground)
      case Csi(param) =>
        if '0' as int <= b <= '9' as int then
          this.(mode := Csi(Some((if param.Some? then param.value * 10 else 0) + (b - '0' as int))))
        else Execute(b)
    }
  }

  const FRESH := Tty([], 0, Ground)

  function Feed(t: Tty, s: Bytes): Tty
    decreases |s|
  {
    if s == [] then t else Feed(t.Receive(s[0]), s[1..])
  }

  predicate Printable(s: Bytes) { forall i | 0 <= i < |s| :: 0x20 <= s[i] <= 0x7E }

  lemma {:induction false} FeedAppend(t: Tty, a: Bytes, b: Bytes)
    ensures Feed(t, a + b) == Feed(Feed(t, a), b)
    decreases |a|
  {
    if a == [] {
      assert a + b == b;
    } else {
      FeedAppend(t.Receive(a[0]), a[1..], b);
      assert (a + b)[1..] == a[1..] + b;
    }
  }

  lemma FeedNothing(t: Tty)
    ensures Feed(t, []) == t
  {
  }

  lemma FeedOne(t: Tty, b: byte)
    ensures Feed(t, [b]) == t.Receive(b)
  {
    assert [b][1..] == [];
  }

  /** Text written at the end of the line extends it. */
  lemma {:induction false} FeedText(t: Tty, s: Bytes)
    requires t.mode == Ground && t.col == |t.line| && Printable(s)
    ensures Feed(t, s) == Tty(t.line + s, t.col + |s|, Ground)
    decreases |s|
  {
    if s == [] {
      assert t.line + s == t.line;
    } else {
      assert t.line + seq(0, _ => BLANK) + [s[0]] == t.line + [s[0]];
      FeedText(t.Put(s[0]), s[1..]);
      assert t.line + [s[0]] + s[1..] == t.line + s;
    }
  }

  lemma {:induction false} FeedDigits(t: Tty, n: nat)
    requires t.mode == Csi(None)
    ensures Feed(t, Digits(n)) == t.(mode := Csi(Some(n)))
  {
    if n < 10 {
      FeedOne(t, '0' as int + n);
    } else {
      FeedDigits(t, n / 10);
      FeedAppend(t, Digits(n / 10), ['0' as int + n % 10]);
      FeedOne(t.(mode := Csi(Some(n / 10))), '0' as int + n % 10);
    }
  }

  function Introduced(s: Bytes): Bytes { [ESC, '[' as int] + s }

  /** ESC [ puts the terminal into an empty control sequence. */
  lemma FeedIntroducer(t: Tty, s: Bytes)
    requires t.mode == Ground
    ensures Feed(t, Introduced(s)) == Feed(t.(mode := Csi(None)), s)
  {
    assert Introduced(s)[1..][1..] == s;
  }

  /** Cursor movement by one, as the arrow keys emit it. */
  lemma FeedMove(t: Tty)
    requires t.mode == Ground
    ensures Feed(t, Introduced(['C' as int])) == Tty(t.line, t.col + 1, Ground)
    ensures t.col > 0 ==> Feed(t, Introduced(['D' as int])) == Tty(t.line, t.col - 1, Ground)
  {
    FeedIntroducer(t, ['C' as int]);
    FeedIntroducer(t, ['D' as int]);
    FeedOne(t.(mode := Csi(None)), 'C' as int);
    FeedOne(t.(mode := Csi(None)), 'D' as int);
  }

  lemma FeedBack(t: Tty, n: nat)
    requires t.mode == Ground && 0 < n <= t.col
    ensures Feed(t, Introduced(Digits(n) + ['D' as int])) == Tty(t.line, t.col - n, Ground)
  {
    FeedIntroducer(t, Digits(n) + ['D' as int]);
    FeedDigits(t.(mode := Csi(None)), n);
    FeedAppend(t.(mode := Csi(None)), Digits(n), ['D' as int]);
    FeedOne(t.(mode := Csi(Some(n))), 'D' as int);
  }

  function WipeBytes(): Bytes { [CR] + Introduced(['K' as int]) }

  /** Carriage return and erase leave an empty line. */
  lemma FeedWipe(t: Tty)
    requires t.mode == Ground
    ensures Feed(t, WipeBytes()) == FRESH
  {
    var home := t.(col := 0);
    assert WipeBytes()[1..] == Introduced(['K' as int]);
    FeedIntroducer(home, ['K' as int]);
    FeedOne(home.(mode := Csi(None)), 'K' as int);
  }
}
