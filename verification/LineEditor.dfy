/**
  The shell's line reader: a buffer with a cursor, a history to walk through, and a screen that is
  updated with as few bytes as possible.
 */
module LineEditor {

  import opened Wrappers
  import opened Words
  import opened Screen

  type History = seq<Bytes>

  // ---- Editing ------------------------------------------------------------------------------

  /** The line being edited; saved is the line held when the bottom of the history was last left. */
  datatype Editor = Editor(buf: Bytes, cursor: nat, saved: Bytes, index: nat) {
    ghost predicate Valid(history: History) {
      && cursor <= |buf| && index <= |history|
      && Printable(buf) && Printable(saved)
    }

    function Holding(line: Bytes): Editor { this.(buf := line, cursor := |line|) }
  }

  ghost predicate PrintableHistory(history: History) { forall line | line in history :: Printable(line) }

  datatype Key = Enter | Up | Down | Right | Left | Erase | Interrupt | EndOfInput | Insert(b: byte) | Nothing

  /** The effect of an editing key. */
  function Apply(history: History, e: Editor, k: Key): Editor
    requires e.cursor <= |e.buf| && e.index <= |history|
  {
    match k
    case Up =>
      if e.index == 0 then e
      else
        var left := if e.index == |history| then e.(saved := e.buf) else e;
        left.(index := e.index - 1).Holding(history[e.index - 1])
    case Down =>
      if e.index == |history| then e
      else if e.index + 1 == |history| then e.(index := e.index + 1).Holding(e.saved)
      else e.(index := e.index + 1).Holding(history[e.index + 1])
    case Right => if e.cursor < |e.buf| then e.(cursor := e.cursor + 1) else e
    case Left => if e.cursor > 0 then e.(cursor := e.cursor - 1) else e
    case Erase =>
      if e.cursor == 0 then e
      else e.(buf := e.buf[..e.cursor - 1] + e.buf[e.cursor..], cursor := e.cursor - 1)
    case Insert(b) => e.(buf := e.buf[..e.cursor] + [b] + e.buf[e.cursor..], cursor := e.cursor + 1)
    case _ => e
  }

  predicate Plain(k: Key) { k.Insert? ==> 0x20 <= k.b <= 0x7E }

  lemma ApplyKeepsValid(history: History, e: Editor, k: Key)
    requires e.Valid(history) && PrintableHistory(history) && Plain(k)
    ensures Apply(history, e, k).Valid(history)
  {
  }

  /** Erasing takes back what was just typed, wherever the cursor is. */
  lemma EraseUndoesInsert(history: History, e: Editor, b: byte)
    requires e.cursor <= |e.buf| && e.index <= |history|
    ensures var typed := Apply(history, e, Insert(b));
            typed.cursor <= |typed.buf| && Apply(history, typed, Erase) == e
  {
    var typed := Apply(history, e, Insert(b));
    assert typed.buf[..typed.cursor - 1] == e.buf[..e.cursor];
    assert typed.buf[typed.cursor..] == e.buf[e.cursor..];
    assert e.buf[..e.cursor] + e.buf[e.cursor..] == e.buf;
  }

  /** The line as the text in front of the cursor and the text behind it. */
  datatype Zipper = Zipper(left: Bytes, right: Bytes) {
    function Edited(k: Key): Zipper {
      match k
      case Insert(b) => Zipper(left + [b], right)
      case Erase => if left == [] then this else Zipper(left[..|left| - 1], right)
      case Left => if left == [] then this else Zipper(left[..|left| - 1], [left[|left| - 1]] + right)
      case Right => if right == [] then this else Zipper(left + [right[0]], right[1..])
      case _ => this
    }
  }

  function Zip(e: Editor): Zipper
    requires e.cursor <= |e.buf|
  {
    Zipper(e.buf[..e.cursor], e.buf[e.cursor..])
  }

  /** Every key but the two that browse edits at the cursor and touches nothing else. */
  lemma EditsAtCursor(history: History, e: Editor, k: Key)
    requires e.cursor <= |e.buf| && e.index <= |history| && k != Up && k != Down
    ensures var after := Apply(history, e, k);
            && after.cursor <= |after.buf| && Zip(after) == Zip(e).Edited(k)
            && after.index == e.index && after.saved == e.saved
  {
    var after := Apply(history, e, k);
    var left, right := e.buf[..e.cursor], e.buf[e.cursor..];
    match k
    case Insert(b) =>
      assert after.buf[..e.cursor + 1] == left + [b] && after.buf[e.cursor + 1..] == right;
    case Erase =>
      if e.cursor > 0 {
        assert after.buf[..e.cursor - 1] == left[..e.cursor - 1] && after.buf[e.cursor - 1..] == right;
      }
    case Left =>
      if e.cursor > 0 {
        assert e.buf[e.cursor - 1..] == [e.buf[e.cursor - 1]] + right;
      }
    case Right =>
      if e.cursor < |e.buf| {
        assert e.buf[..e.cursor + 1] == left + [right[0]];
      }
    case _ =>
  }

  function Repeat(k: Key, n: nat): (keys: seq<Key>)
    ensures |keys| == n
  {
    if n == 0 then [] else [k] + Repeat(k, n - 1)
  }

  // ---- What is sent to the screen --------------------------------------------------------------

  function RedrawBytes(prompt: Bytes, e: Editor): Bytes
    requires e.cursor <= |e.buf|
  {
    WipeBytes() + prompt + e.buf +
    if e.cursor < |e.buf| then Introduced(Digits(|e.buf| - e.cursor) + ['D' as int]) else []
  }

  /** The bytes an editing key emits: nothing, one character, one cursor movement, or a full redraw. */
  function EchoBytes(prompt: Bytes, history: History, e: Editor, k: Key): Bytes
    requires e.cursor <= |e.buf| && e.index <= |history|
  {
    var after := Apply(history, e, k);
    match k
    case Up => if e.index == 0 then [] else RedrawBytes(prompt, after)
    case Down => if e.index == |history| then [] else RedrawBytes(prompt, after)
    case Right => if e.cursor < |e.buf| then Introduced(['C' as int]) else []
    case Left => if e.cursor > 0 then Introduced(['D' as int]) else []
    case Erase => if e.cursor == 0 then [] else RedrawBytes(prompt, after)
    case Insert(b) => if e.cursor == |e.buf| then [b] else RedrawBytes(prompt, after)
    case _ => []
  }

  /** The terminal line that a prompt and an editor should show. */
  function Shown(prompt: Bytes, e: Editor): Tty { Tty(prompt + e.buf, |prompt| + e.cursor, Ground) }

  /** Redrawing shows the editor whatever was on the line. */
  lemma RedrawShows(t: Tty, prompt: Bytes, e: Editor)
    requires t.mode == Ground && Printable(prompt) && Printable(e.buf) && e.cursor <= |e.buf|
    ensures Feed(t, RedrawBytes(prompt, e)) == Shown(prompt, e)
  {
    hide Feed, Digits, Introduced, WipeBytes;
    var text := prompt + e.buf;
    var full := Tty(text, |text|, Ground);
    FeedWipe(t);
    FeedAppend(t, WipeBytes(), text);
    FeedText(FRESH, text);
    assert [] + text == text;
    assert WipeBytes() + text == WipeBytes() + prompt + e.buf;
    if e.cursor < |e.buf| {
      var back := Introduced(Digits(|e.buf| - e.cursor) + ['D' as int]);
      FeedAppend(t, WipeBytes() + text, back);
      FeedBack(full, |e.buf| - e.cursor);
    } else {
      assert WipeBytes() + text + [] == WipeBytes() + text;
    }
  }

  /** The bytes sent, one by one: a cursor movement, a character, or the line from its start. */
  lemma EchoSends(prompt: Bytes, history: History, e: Editor, b: byte)
    requires e.cursor <= |e.buf| && e.index <= |history|
    ensures e.cursor < |e.buf| ==> EchoBytes(prompt, history, e, Right) == [0x1B, 0x5B, 0x43]
    ensures e.cursor > 0 ==> EchoBytes(prompt, history, e, Left) == [0x1B, 0x5B, 0x44]
    ensures e.cursor == |e.buf| ==> EchoBytes(prompt, history, e, Insert(b)) == [b]
    ensures RedrawBytes(prompt, e) == [0x0D, 0x1B, 0x5B, 0x4B] + prompt + e.buf
              + if e.cursor < |e.buf| then [0x1B, 0x5B] + Digits(|e.buf| - e.cursor) + [0x44] else []
  {
    assert WipeBytes() == [0x0D, 0x1B, 0x5B, 0x4B];
    assert [0x1B, 0x5B] + (Digits(|e.buf| - e.cursor) + [0x44]) == [0x1B, 0x5B] + Digits(|e.buf| - e.cursor) + [0x44];
  }

  /** The keys that redraw the whole line. */
  predicate Redraws(history: History, e: Editor, k: Key) {
    match k
    case Up => e.index != 0
    case Down => e.index != |history|
    case Erase => e.cursor != 0
    case Insert(_) => e.cursor != |e.buf|
    case _ => false
  }

  /** The four things an editing key can emit besides a redraw, and what it does to the editor then. */
  ghost predicate EchoCase(e: Editor, echo: Bytes, after: Editor, k: Key) {
    || (echo == [] && after == e)
    || (echo == Introduced(['C' as int]) && after == e.(cursor := e.cursor + 1))
    || (echo == Introduced(['D' as int]) && e.cursor > 0 && after == e.(cursor := e.cursor - 1))
    || (k.Insert? && echo == [k.b] && e.cursor == |e.buf| && after == e.(buf := e.buf + [k.b], cursor := e.cursor + 1))
  }

  lemma EchoCases(prompt: Bytes, history: History, e: Editor, k: Key)
    requires e.cursor <= |e.buf| && e.index <= |history|
    ensures var echo, after := EchoBytes(prompt, history, e, k), Apply(history, e, k);
            && after.cursor <= |after.buf|
            && if Redraws(history, e, k) then echo == RedrawBytes(prompt, after) else EchoCase(e, echo, after, k)
  {
    hide RedrawBytes, Introduced;
    if k.Insert? && e.cursor == |e.buf| {
      assert e.buf[..e.cursor] + [k.b] + e.buf[e.cursor..] == e.buf + [k.b];
    }
  }

  /** Without a redraw the echo moves on from whatever stands in front of the buffer. */
  lemma EchoCaseShows(front: Bytes, e: Editor, echo: Bytes, after: Editor, k: Key)
    requires Plain(k) && EchoCase(e, echo, after, k)
    ensures Feed(Shown(front, e), echo) == Shown(front, after)
  {
    var t := Shown(front, e);
    hide Feed, Introduced;
    if after == e {
      FeedNothing(t);
    } else if after.buf == e.buf {
      FeedMove(t);
    } else {
      CharacterShows(front, e, k.b);
    }
  }

  /** One character at the end of the line. */
  lemma CharacterShows(prompt: Bytes, e: Editor, b: byte)
    requires e.cursor == |e.buf| && 0x20 <= b <= 0x7E
    ensures Feed(Shown(prompt, e), [b]) == Shown(prompt, e.(buf := e.buf + [b], cursor := e.cursor + 1))
  {
    FeedText(Shown(prompt, e), [b]);
    hide Feed;
    Associative(prompt, e.buf, [b]);
  }

  /** What is left of text in front of the prompt after a key: a redraw wipes it out. */
  function LeadAfter(lead: Bytes, history: History, e: Editor, k: Key): Bytes {
    if Redraws(history, e, k) then [] else lead
  }

  /**
    The fast paths agree with a full redraw: after every editing key the line shows the editor,
    behind the text that stood in front of the prompt, if any is left.
   */
  lemma EchoShows(lead: Bytes, prompt: Bytes, history: History, e: Editor, k: Key)
    requires Printable(prompt) && e.Valid(history) && PrintableHistory(history) && Plain(k)
    ensures Feed(Shown(lead + prompt, e), EchoBytes(prompt, history, e, k))
            == Shown(LeadAfter(lead, history, e, k) + prompt, Apply(history, e, k))
  {
    ApplyKeepsValid(history, e, k);
    EchoCases(prompt, history, e, k);
    hide Feed, RedrawBytes, Introduced, EchoBytes, Apply, EchoCase, Redraws, Shown;
    var echo, after := EchoBytes(prompt, history, e, k), Apply(history, e, k);
    if Redraws(history, e, k) {
      ShownIsGround(lead + prompt, e);
      RedrawShows(Shown(lead + prompt, e), prompt, after);
      assert [] + prompt == prompt;
    } else {
      EchoCaseShows(lead + prompt, e, echo, after, k);
    }
  }

  lemma ShownIsGround(front: Bytes, e: Editor)
    ensures Shown(front, e).mode == Ground
  {
  }

  // ---- Runs of keys ------------------------------------------------------------------------------

  function RunKeys(history: History, e: Editor, keys: seq<Key>): Editor
    requires e.cursor <= |e.buf| && e.index <= |history|
    decreases |keys|
  {
    if keys == [] then e else RunKeys(history, Apply(history, e, keys[0]), keys[1..])
  }

  function EchoAll(prompt: Bytes, history: History, e: Editor, keys: seq<Key>): Bytes
    requires e.cursor <= |e.buf| && e.index <= |history|
    decreases |keys|
  {
    if keys == [] then []
    else EchoBytes(prompt, history, e, keys[0]) + EchoAll(prompt, history, Apply(history, e, keys[0]), keys[1..])
  }

  /** What is left of text in front of the prompt after some keys. */
  function LeadLeft(lead: Bytes, history: History, e: Editor, keys: seq<Key>): Bytes
    requires e.cursor <= |e.buf| && e.index <= |history|
    decreases |keys|
  {
    if keys == [] then lead
    else LeadLeft(LeadAfter(lead, history, e, keys[0]), history, Apply(history, e, keys[0]), keys[1..])
  }

  /** Some of the keys redraws the line. */
  predicate Redrawn(history: History, e: Editor, keys: seq<Key>)
    requires e.cursor <= |e.buf| && e.index <= |history|
    decreases |keys|
  {
    keys != [] && (Redraws(history, e, keys[0]) || Redrawn(history, Apply(history, e, keys[0]), keys[1..]))
  }

  lemma {:induction false} LeadLeftIs(lead: Bytes, history: History, e: Editor, keys: seq<Key>)
    requires e.cursor <= |e.buf| && e.index <= |history|
    ensures LeadLeft(lead, history, e, keys) == if Redrawn(history, e, keys) then [] else lead
    decreases |keys|
  {
    if keys != [] {
      LeadLeftIs(LeadAfter(lead, history, e, keys[0]), history, Apply(history, e, keys[0]), keys[1..]);
    }
    hide Apply, Redraws;
  }

  /** After any keys the line shows prompt and buffer with the cursor in place, and the editor is in range. */
  lemma {:induction false} LineFollows(lead: Bytes, prompt: Bytes, history: History, e: Editor, keys: seq<Key>)
    requires Printable(prompt) && e.Valid(history) && PrintableHistory(history)
    requires forall k | k in keys :: Plain(k)
    ensures Feed(Shown(lead + prompt, e), EchoAll(prompt, history, e, keys))
            == Shown(LeadLeft(lead, history, e, keys) + prompt, RunKeys(history, e, keys))
    ensures RunKeys(history, e, keys).Valid(history)
    decreases |keys|
  {
    if keys != [] {
      var k, t := keys[0], Shown(lead + prompt, e);
      var e1, lead1 := Apply(history, e, k), LeadAfter(lead, history, e, k);
      EchoShows(lead, prompt, history, e, k);
      ApplyKeepsValid(history, e, k);
      LineFollows(lead1, prompt, history, e1, keys[1..]);
      FeedAppend(t, EchoBytes(prompt, history, e, k), EchoAll(prompt, history, e1, keys[1..]));
      hide Feed, Shown, EchoBytes, Apply, LeadAfter, Printable;
    }
  }

  /**
    Screen and editor agree after any keys exactly when no text stood in front of the prompt, or some
    key has redrawn the line since.
   */
  lemma ScreenAgrees(lead: Bytes, prompt: Bytes, history: History, e: Editor, keys: seq<Key>)
    requires Printable(prompt) && e.Valid(history) && PrintableHistory(history)
    requires forall k | k in keys :: Plain(k)
    ensures RunKeys(history, e, keys).Valid(history)
    ensures Feed(Shown(lead + prompt, e), EchoAll(prompt, history, e, keys)) == Shown(prompt, RunKeys(history, e, keys))
            <==> lead == [] || Redrawn(history, e, keys)
  {
    LineFollows(lead, prompt, history, e, keys);
    LeadLeftIs(lead, history, e, keys);
    var left, end := LeadLeft(lead, history, e, keys), RunKeys(history, e, keys);
    assert [] + prompt == prompt;
    hide Feed, EchoAll, RunKeys, LeadLeft, Redrawn, Printable;
    assert |Shown(left + prompt, end).line| == |left| + |Shown(prompt, end).line|;
  }

  /** The editor is away from the bottom of the history before each of the keys. */
  predicate AwayBefore(history: History, e: Editor, keys: seq<Key>)
    requires e.cursor <= |e.buf| && e.index <= |history|
    decreases |keys|
  {
    keys != [] ==> e.index < |history| && AwayBefore(history, Apply(history, e, keys[0]), keys[1..])
  }

  lemma {:induction false} ReturnRestores(history: History, e: Editor, keys: seq<Key>)
    requires e.cursor <= |e.buf| && e.index < |history|
    requires AwayBefore(history, e, keys)
    ensures var end := RunKeys(history, e, keys);
            end.index == |history| ==> end.buf == e.saved && end.cursor == |e.saved|
    decreases |keys|
  {
    if keys != [] {
      var e1 := Apply(history, e, keys[0]);
      if e1.index < |history| {
        ReturnRestores(history, e1, keys[1..]);
      }
    }
  }

  /**
    Leaving the bottom with Up and coming back to it brings back the draft, whatever was browsed and
    edited in between.
   */
  lemma DraftIsNeverLost(history: History, e: Editor, keys: seq<Key>)
    requires e.cursor <= |e.buf| && e.index == |history| > 0
    requires AwayBefore(history, Apply(history, e, Up), keys)
    requires RunKeys(history, Apply(history, e, Up), keys).index == |history|
    ensures RunKeys(history, Apply(history, e, Up), keys).buf == e.buf
    ensures RunKeys(history, Apply(history, e, Up), keys).cursor == |e.buf|
  {
    ReturnRestores(history, Apply(history, e, Up), keys);
  }

  lemma RunOneMore(history: History, e: Editor, k: Key, n: nat)
    requires e.cursor <= |e.buf| && e.index <= |history|
    ensures var e1 := Apply(history, e, k);
            && e1.cursor <= |e1.buf| && e1.index <= |history|
            && RunKeys(history, e, Repeat(k, n + 1)) == RunKeys(history, e1, Repeat(k, n))
  {
    assert ([k] + Repeat(k, n))[1..] == Repeat(k, n);
  }

  /** Going up n times shows the n-th entry before, and keeps the draft if it starts from the bottom. */
  lemma {:induction false} UpsBrowse(history: History, e: Editor, n: nat)
    requires e.cursor <= |e.buf| && e.index <= |history| && 0 < n <= e.index
    ensures var end := RunKeys(history, e, Repeat(Up, n));
            && end.index == e.index - n && end.buf == history[e.index - n] && end.cursor == |end.buf|
            && end.saved == if e.index == |history| then e.buf else e.saved
    decreases n
  {
    var e1 := Apply(history, e, Up);
    RunOneMore(history, e, Up, n - 1);
    if n > 1 {
      UpsBrowse(history, e1, n - 1);
    }
  }

  /** Going down n times shows the n-th entry after, or the draft at the bottom. */
  lemma {:induction false} DownsBrowse(history: History, e: Editor, n: nat)
    requires e.cursor <= |e.buf| && 0 < n && e.index + n <= |history|
    ensures var end := RunKeys(history, e, Repeat(Down, n));
            && end.index == e.index + n && end.saved == e.saved && end.cursor == |end.buf|
            && end.buf == if e.index + n == |history| then e.saved else history[e.index + n]
    decreases n
  {
    var e1 := Apply(history, e, Down);
    RunOneMore(history, e, Down, n - 1);
    if n > 1 {
      DownsBrowse(history, e1, n - 1);
    }
  }

  /** There is nothing above the first entry and nothing below the line being typed. */
  lemma BrowsingStops(history: History, e: Editor)
    requires e.cursor <= |e.buf| && e.index <= |history|
    ensures Apply(history, e, Up) == e <==> e.index == 0
    ensures Apply(history, e, Down) == e <==> e.index == |history|
  {
  }

  // ---- Keys on the wire ---------------------------------------------------------------------------

  predicate Ends(k: Key) { k == Enter || k == Interrupt || k == EndOfInput }

  predicate IsParameter(b: byte) { 0x20 <= b <= 0x3F }

  function Parameters(s: Bytes): (n: nat)
    ensures n <= |s|
    ensures n < |s| ==> !IsParameter(s[n])
    ensures forall i | 0 <= i < n :: IsParameter(s[i])
  {
    if s == [] || !IsParameter(s[0]) then 0 else 1 + Parameters(s[1..])
  }

  /** The parameters from a position on end at the first byte that is none. */
  lemma ParametersAt(s: Bytes, start: nat)
    requires start <= |s|
    ensures var n := Parameters(s[start..]);
            && start + n <= |s|
            && (forall i | start <= i < start + n :: IsParameter(s[i]))
            && (start + n < |s| ==> !IsParameter(s[start + n]))
  {
    var n := Parameters(s[start..]);
    hide Parameters, IsParameter;
    forall i | start <= i < start + n
      ensures IsParameter(s[i])
    {
      assert s[start..][i - start] == s[i];
    }
  }

  /** What follows ESC [: an arrow, or an unknown sequence that is skipped up to its last byte. */
  function SequenceKey(s: Bytes): (r: Option<(Key, nat)>)
    ensures r.Some? ==> 1 <= r.value.1 <= |s| && !Ends(r.value.0) && !r.value.0.Insert?
  {
    if s == [] then None
    else if s[0] == 'A' as int then Some((Up, 1))
    else if s[0] == 'B' as int then Some((Down, 1))
    else if s[0] == 'C' as int then Some((Right, 1))
    else if s[0] == 'D' as int then Some((Left, 1))
    else
      var n := Parameters(s);
      if n == |s| then None else Some((Nothing, 1 + n))
  }

  /** The next key and its length; None when the input ends before it is complete. */
  function NextKey(s: Bytes): (r: Option<(Key, nat)>)
    ensures r.Some? ==> 1 <= r.value.1 <= |s|
  {
    if s == [] then None
    else if s[0] == LF || s[0] == CR then Some((Enter, 1))
    else if s[0] == ESC then
      if |s| < 2 then None
      else if s[1] != '[' as int then Some((Nothing, 2))
      else
        var arrow := SequenceKey(s[2..]);
        if arrow == None then None else Some((arrow.value.0, 2 + arrow.value.1))
    else if s[0] == 0x7F || s[0] == 0x08 then Some((Erase, 1))
    else if s[0] == 0x03 then Some((Interrupt, 1))
    else if s[0] == 0x04 then Some((EndOfInput, 1))
    else if s[0] >= 0x20 then Some((Insert(s[0]), 1))
    else Some((Nothing, 1))
  }

  /** The editing keys of one line, the key that ends it if the input has one, and what follows. */
  function LineKeys(s: Bytes): (r: (seq<Key>, Option<Key>, Bytes))
    ensures r.1.Some? ==> |r.2| < |s|
    decreases |s|
  {
    var next := NextKey(s);
    if next == None then ([], None, [])
    else
      var (k, n) := next.value;
      if Ends(k) then ([], Some(k), s[n..])
      else
        var (keys, end, rest) := LineKeys(s[n..]);
        ([k] + keys, end, rest)
  }

  predicate SevenBit(s: Bytes) { forall i | 0 <= i < |s| :: s[i] < 0x80 }

  lemma NextKeyPlain(s: Bytes)
    requires SevenBit(s)
    ensures NextKey(s).Some? ==> Plain(NextKey(s).value.0)
  {
  }

  // ---- Decoding inverts encoding -----------------------------------------------------------------

  /** ESC [, any bytes from space to '?', and one that is none of them: not an arrow. */
  predicate UnknownSequence(s: Bytes) {
    && |s| >= 3 && s[0] == 0x1B && s[1] == 0x5B && !(0x41 <= s[2] <= 0x44)
    && (forall i | 2 <= i < |s| - 1 :: 0x20 <= s[i] <= 0x3F)
    && !(0x20 <= s[|s| - 1] <= 0x3F)
  }

  /** What the keys send. Bytes and sequences the shell does not know do nothing. */
  predicate Encodes(s: Bytes, k: Key) {
    match k
    case Enter => s == [0x0A] || s == [0x0D]
    case Up => s == [0x1B, 0x5B, 0x41]
    case Down => s == [0x1B, 0x5B, 0x42]
    case Right => s == [0x1B, 0x5B, 0x43]
    case Left => s == [0x1B, 0x5B, 0x44]
    case Erase => s == [0x7F] || s == [0x08]
    case Interrupt => s == [0x03]
    case EndOfInput => s == [0x04]
    case Insert(b) => s == [b] && b >= 0x20 && b != 0x7F
    case Nothing =>
      || (|s| == 1 && s[0] < 0x20 && s[0] !in {0x03, 0x04, 0x08, 0x0A, 0x0D, 0x1B})
      || (|s| == 2 && s[0] == 0x1B && s[1] != 0x5B)
      || UnknownSequence(s)
  }

  lemma {:induction false} ParametersOf(ps: Bytes, rest: Bytes)
    requires (forall i | 0 <= i < |ps| :: 0x20 <= ps[i] <= 0x3F) && rest != [] && !(0x20 <= rest[0] <= 0x3F)
    ensures Parameters(ps + rest) == |ps|
  {
    if ps == [] {
      assert ps + rest == rest;
    } else {
      ParametersOf(ps[1..], rest);
      assert (ps + rest)[1..] == ps[1..] + rest;
    }
  }

  lemma UnknownSequenceReads(s: Bytes, rest: Bytes)
    requires UnknownSequence(s)
    ensures SequenceKey((s + rest)[2..]) == Some((Nothing, |s| - 2))
  {
    var n := |s| - 1;
    ParametersOf(s[2..n], [s[n]] + rest);
    assert (s + rest)[2..] == s[2..n] + ([s[n]] + rest);
    hide Parameters;
  }

  /** The next key of an input that starts with an encoding is the key encoded, and takes just that encoding. */
  lemma NextKeyReads(s: Bytes, k: Key, rest: Bytes)
    requires Encodes(s, k)
    ensures NextKey(s + rest) == Some((k, |s|))
  {
    hide Parameters;
    if UnknownSequence(s) {
      UnknownSequenceReads(s, rest);
      hide SequenceKey;
    } else if |s| == 3 {
      assert (s + rest)[2..][0] == s[2];
    }
  }

  /** Whatever is read as a key is an encoding of it. */
  lemma NextKeyIsEncoded(s: Bytes)
    ensures NextKey(s).Some? ==> Encodes(s[..NextKey(s).value.1], NextKey(s).value.0)
  {
    if |s| > 2 && s[0] == ESC && s[1] == '[' as int {
      var n := Parameters(s[2..]);
      assert forall i | 2 <= i < 2 + n :: s[i] == s[2..][i - 2];
      assert n < |s[2..]| ==> s[2..][n] == s[2 + n];
      hide Parameters;
    }
  }

  function Concat(codes: seq<Bytes>): Bytes {
    if codes == [] then [] else codes[0] + Concat(codes[1..])
  }

  /** Editing keys and their encodings, one by one. */
  ghost predicate EncodesAll(codes: seq<Bytes>, keys: seq<Key>) {
    |codes| == |keys| && forall i | 0 <= i < |keys| :: Encodes(codes[i], keys[i]) && !Ends(keys[i])
  }

  lemma EncodesOneLess(codes: seq<Bytes>, keys: seq<Key>)
    requires EncodesAll(codes, keys) && keys != []
    ensures |codes| == |keys| && Encodes(codes[0], keys[0]) && !Ends(keys[0]) && EncodesAll(codes[1..], keys[1..])
  {
    hide Encodes, Ends;
  }

  /** A line comes back from the encodings of its keys, whatever follows it. */
  lemma {:induction false} LineKeysRead(codes: seq<Bytes>, keys: seq<Key>, code: Bytes, end: Key, rest: Bytes)
    requires EncodesAll(codes, keys) && Encodes(code, end) && Ends(end)
    ensures LineKeys(Concat(codes) + code + rest) == (keys, Some(end), rest)
    decreases |keys|
  {
    hide NextKey, Encodes, LineKeys;
    var s := Concat(codes) + code + rest;
    if keys == [] {
      NextKeyReads(code, end, rest);
      assert s == code + rest;
      LineEndsAt(code, end, rest);
    } else {
      var tail := Concat(codes[1..]) + code + rest;
      EncodesOneLess(codes, keys);
      assert s == codes[0] + tail;
      LineGoesOn(codes[0], keys[0], tail);
      LineKeysRead(codes[1..], keys[1..], code, end, rest);
      assert [keys[0]] + keys[1..] == keys;
    }
  }

  lemma LineEndsAt(code: Bytes, end: Key, rest: Bytes)
    requires Encodes(code, end) && Ends(end)
    ensures LineKeys(code + rest) == ([], Some(end), rest)
  {
    NextKeyReads(code, end, rest);
    assert (code + rest)[|code|..] == rest;
    hide NextKey, Encodes;
  }

  lemma LineGoesOn(code: Bytes, k: Key, tail: Bytes)
    requires Encodes(code, k) && !Ends(k)
    ensures var (keys, end, rest) := LineKeys(tail); LineKeys(code + tail) == ([k] + keys, end, rest)
  {
    NextKeyReads(code, k, tail);
    assert (code + tail)[|code|..] == tail;
    hide NextKey, Encodes;
  }

  lemma ConcatUnfolds(codes: seq<Bytes>)
    requires codes != []
    ensures Concat(codes) == codes[0] + Concat(codes[1..])
  {
  }

  /** Input that ends within a line yields its keys and no end. */
  lemma {:induction false} UnfinishedLineReads(codes: seq<Bytes>, keys: seq<Key>)
    requires EncodesAll(codes, keys)
    ensures LineKeys(Concat(codes)) == (keys, None, [])
    decreases |keys|
  {
    if keys != [] {
      hide LineKeys, Encodes, EncodesAll, Concat;
      EncodesOneLess(codes, keys);
      ConcatUnfolds(codes);
      LineGoesOn(codes[0], keys[0], Concat(codes[1..]));
      UnfinishedLineReads(codes[1..], keys[1..]);
      assert [keys[0]] + keys[1..] == keys;
    }
  }

  datatype Outcome = Line(text: Bytes) | EndOfFile

  const CTRL_C: Bytes := ['^' as int, 'C' as int, LF]

  /** What read_line returns for the key that ended the line, and what it writes last. */
  function OutcomeOf(end: Option<Key>, e: Editor): Outcome {
    match end
    case Some(Enter) => Line(e.buf)
    case Some(Interrupt) => Line([])
    case _ => EndOfFile
  }

  function Farewell(end: Option<Key>): Bytes {
    match end
    case Some(Enter) => [LF]
    case Some(Interrupt) => CTRL_C
    case _ => []
  }

  /** A new line is empty and stands at the bottom of the history. */
  function Start(history: History): Editor { Editor([], 0, [], |history|) }

  /** After an ended line the terminal is on a fresh one. */
  lemma FarewellFreshens(t: Tty, end: Option<Key>)
    requires t.mode == Ground && (end == Some(Enter) || end == Some(Interrupt))
    ensures Feed(t, Farewell(end)) == FRESH
  {
    if end == Some(Enter) {
      FeedOne(t, LF);
    } else {
      FeedAppend(t, CTRL_C[..2], [LF]);
      assert CTRL_C[..2] + [LF] == CTRL_C;
      FeedOne(Feed(t, CTRL_C[..2]), LF);
      assert Feed(t, CTRL_C[..2]).mode == Ground by {
        FeedAppend(t, [CTRL_C[0]], [CTRL_C[1]]);
        assert [CTRL_C[0]] + [CTRL_C[1]] == CTRL_C[..2];
        FeedOne(t, CTRL_C[0]);
        FeedOne(t.Receive(CTRL_C[0]), CTRL_C[1]);
      }
    }
  }

  /** Where a line is going: all that will be written before it ends, the final editor, the last key, the rest of the input. */
  datatype Goal = Goal(out: Bytes, last: Editor, end: Option<Key>, rest: Bytes)

  /** From this editor, output and input the line still reaches its goal. */
  ghost predicate OnTrack(g: Goal, p: Bytes, history: History, e: Editor, out: Bytes, todo: Bytes)
    requires e.cursor <= |e.buf| && e.index <= |history|
  {
    var (keys, end, rest) := LineKeys(todo);
    && g == Goal(out + EchoAll(p, history, e, keys), RunKeys(history, e, keys), end, rest)
  }

  lemma OnTrackContinues(g: Goal, p: Bytes, history: History, e: Editor, out: Bytes, todo: Bytes)
    requires e.cursor <= |e.buf| && e.index <= |history|
    requires OnTrack(g, p, history, e, out, todo)
    ensures var next := NextKey(todo);
            if next == None then g.out == out && g.last == e && g.end == None
            else if Ends(next.value.0) then g == Goal(out, e, Some(next.value.0), todo[next.value.1..])
            else OnTrack(g, p, history, Apply(history, e, next.value.0),
                         out + EchoBytes(p, history, e, next.value.0), todo[next.value.1..])
  {
    assert out + [] == out;
    var next := NextKey(todo);
    hide NextKey;
    if next.Some? && !Ends(next.value.0) {
      var (k, n) := next.value;
      var (keys, end, rest) := LineKeys(todo[n..]);
      RunUnfolds(p, history, e, k, keys, out);
      assert LineKeys(todo) == ([k] + keys, end, rest);
      hide RunKeys, EchoAll, EchoBytes, Apply, LineKeys;
    }
  }

  lemma RunUnfolds(p: Bytes, history: History, e: Editor, k: Key, keys: seq<Key>, out: Bytes)
    requires e.cursor <= |e.buf| && e.index <= |history|
    ensures var e1 := Apply(history, e, k);
            && e1.cursor <= |e1.buf| && e1.index <= |history|
            && RunKeys(history, e, [k] + keys) == RunKeys(history, e1, keys)
            && out + EchoAll(p, history, e, [k] + keys) == out + EchoBytes(p, history, e, k) + EchoAll(p, history, e1, keys)
  {
    assert ([k] + keys)[1..] == keys;
    var e1 := Apply(history, e, k);
    var now, later := EchoBytes(p, history, e, k), EchoAll(p, history, e1, keys);
    hide Apply, EchoBytes;
    assert EchoAll(p, history, e, [k] + keys) == now + later;
    assert out + (now + later) == out + now + later;
  }

  /** A terminal whose cursor is behind the text of its line. */
  ghost predicate AtLineEnd(t: Tty) { t == Tty(t.line, |t.line|, Ground) }

  /** Writing the prompt behind the text of the line shows an empty editor there. */
  lemma PromptShows(out: Bytes, p: Bytes, history: History)
    requires AtLineEnd(Feed(FRESH, out)) && Printable(p)
    ensures Feed(FRESH, out + p) == Shown(Feed(FRESH, out).line + p, Start(history))
  {
    var t := Feed(FRESH, out);
    FeedAppend(FRESH, out, p);
    FeedText(t, p);
    assert t.line + p + [] == t.line + p;
    hide Feed;
  }

  const EXIT: Bytes := ['e' as int, 'x' as int, 'i' as int, 't' as int]
  const HALT: Bytes := ['h' as int, 'a' as int, 'l' as int, 't' as int]
  const SHUTDOWN: Bytes := ['s' as int, 'h' as int, 'u' as int, 't' as int, 'd' as int, 'o' as int, 'w' as int, 'n' as int]

  predicate Stops(line: Bytes) { line == EXIT || line == HALT || line == SHUTDOWN }

  /** The outcome of the line that an input begins with, what is written for it, and the input behind it. */
  function FirstEntry(p: Bytes, history: History, s: Bytes): (r: (Outcome, Bytes, Bytes))
    ensures r.0.Line? ==> |r.2| < |s|
  {
    var (keys, end, rest) := LineKeys(s);
    (OutcomeOf(end, RunKeys(history, Start(history), keys)), p + EchoAll(p, history, Start(history), keys) + Farewell(end), rest)
  }

  /**
    The ends a line may have: the line is returned as edited, Control-C gives an empty one, and
    Control-D or the end of input gives none.
   */
  lemma LineOutcomes(p: Bytes, history: History, codes: seq<Bytes>, keys: seq<Key>, rest: Bytes)
    requires EncodesAll(codes, keys)
    ensures var typed, e := Concat(codes), RunKeys(history, Start(history), keys);
            var shown := p + EchoAll(p, history, Start(history), keys);
            && FirstEntry(p, history, typed + [0x0A] + rest) == (Line(e.buf), shown + [0x0A], rest)
            && FirstEntry(p, history, typed + [0x0D] + rest) == (Line(e.buf), shown + [0x0A], rest)
            && FirstEntry(p, history, typed + [0x03] + rest) == (Line([]), shown + [0x5E, 0x43, 0x0A], rest)
            && FirstEntry(p, history, typed + [0x04] + rest) == (EndOfFile, shown, rest)
            && FirstEntry(p, history, typed) == (EndOfFile, shown, [])
  {
    LineKeysRead(codes, keys, [0x0A], Enter, rest);
    LineKeysRead(codes, keys, [0x0D], Enter, rest);
    LineKeysRead(codes, keys, [0x03], Interrupt, rest);
    LineKeysRead(codes, keys, [0x04], EndOfInput, rest);
    UnfinishedLineReads(codes, keys);
    hide LineKeys, RunKeys, EchoAll, EncodesAll, Concat, Start;
    var shown := p + EchoAll(p, history, Start(history), keys);
    assert shown + [] == shown;
  }

  function Letters(text: Bytes): (codes: seq<Bytes>) { if text == [] then [] else [[text[0]]] + Letters(text[1..]) }

  function Inserts(text: Bytes): (keys: seq<Key>) { if text == [] then [] else [Insert(text[0])] + Inserts(text[1..]) }

  lemma {:induction false} LettersEncode(text: Bytes)
    requires Printable(text)
    ensures EncodesAll(Letters(text), Inserts(text)) && Concat(Letters(text)) == text
  {
    if text != [] {
      LettersEncode(text[1..]);
      assert Encodes([text[0]], Insert(text[0]));
      hide EncodesAll, Encodes;
      EncodesOneMore([text[0]], Insert(text[0]), Letters(text[1..]), Inserts(text[1..]));
      assert ([[text[0]]] + Letters(text[1..]))[1..] == Letters(text[1..]);
      assert [text[0]] + text[1..] == text;
    }
  }

  lemma EncodesOneMore(code: Bytes, k: Key, codes: seq<Bytes>, keys: seq<Key>)
    requires EncodesAll(codes, keys) && Encodes(code, k) && !Ends(k)
    ensures EncodesAll([code] + codes, [k] + keys)
  {
    hide Encodes, Ends;
  }

  /** Typing at the end of the line appends the text and shows it. */
  lemma {:induction false} TypingAppends(p: Bytes, history: History, e: Editor, text: Bytes)
    requires e.cursor == |e.buf| && e.index <= |history|
    ensures RunKeys(history, e, Inserts(text)) == e.Holding(e.buf + text)
    ensures EchoAll(p, history, e, Inserts(text)) == text
    decreases |text|
  {
    if text == [] {
      assert e.buf + text == e.buf;
    } else {
      TypingOne(p, history, e, text[0]);
      KeyGoesFirst(p, history, e, Insert(text[0]), Inserts(text[1..]));
      hide RunKeys, EchoAll, Apply, EchoBytes;
      TypingAppends(p, history, e.Holding(e.buf + [text[0]]), text[1..]);
      Associative(e.buf, [text[0]], text[1..]);
      assert [text[0]] + text[1..] == text;
    }
  }

  lemma TypingOne(p: Bytes, history: History, e: Editor, b: byte)
    requires e.cursor == |e.buf| && e.index <= |history|
    ensures Apply(history, e, Insert(b)) == e.Holding(e.buf + [b])
    ensures EchoBytes(p, history, e, Insert(b)) == [b]
  {
    assert e.buf[..e.cursor] + [b] + e.buf[e.cursor..] == e.buf + [b];
  }

  lemma KeyGoesFirst(p: Bytes, history: History, e: Editor, k: Key, keys: seq<Key>)
    requires e.cursor <= |e.buf| && e.index <= |history|
    ensures var e1 := Apply(history, e, k);
            && e1.cursor <= |e1.buf| && e1.index <= |history|
            && RunKeys(history, e, [k] + keys) == RunKeys(history, e1, keys)
            && EchoAll(p, history, e, [k] + keys) == EchoBytes(p, history, e, k) + EchoAll(p, history, e1, keys)
  {
    assert ([k] + keys)[1..] == keys;
    var e1 := Apply(history, e, k);
    hide EchoBytes;
  }

  /** Text typed and ended is returned as it is. */
  lemma TextIsReturned(p: Bytes, history: History, text: Bytes, rest: Bytes)
    requires Printable(text)
    ensures FirstEntry(p, history, text + [0x0A] + rest) == (Line(text), p + text + [0x0A], rest)
  {
    LettersEncode(text);
    LineOutcomes(p, history, Letters(text), Inserts(text), rest);
    TypingAppends(p, history, Start(history), text);
    assert [] + text == text;
    hide FirstEntry, RunKeys, EchoAll, Concat, Letters, Inserts, EncodesAll;
  }

  /** What running a line does: input it reads, bytes it writes. */
  datatype Effect = Effect(read: nat, written: Bytes) {
    /** Wherever it starts, the cursor ends behind the text of its line. */
    ghost predicate Tidy() { forall t: Tty | AtLineEnd(t) :: AtLineEnd(Feed(t, written)) }
  }

  const NO_EFFECT: Effect := Effect(0, [])

  function NextEffect(effects: seq<Effect>): Effect { if effects == [] then NO_EFFECT else effects[0] }

  function LaterEffects(effects: seq<Effect>): seq<Effect> { if effects == [] then [] else effects[1..] }

  function Unread(s: Bytes, e: Effect): Bytes { s[Min(e.read, |s|)..] }

  /**
    The lines that are not empty, up to the one that stops the shell or to the end of input, and all
    that is written, when the lines run have these effects, one after the other.
   */
  function Entered(p: Bytes, history: History, s: Bytes, effects: seq<Effect>): (seq<Bytes>, Bytes)
    decreases |s|
  {
    var (outcome, out, rest) := FirstEntry(p, history, s);
    if outcome == EndOfFile then ([], out)
    else if outcome.text == [] then
      var (lines, later) := Entered(p, history, rest, effects);
      (lines, out + later)
    else if Stops(outcome.text) then ([outcome.text], out)
    else
      var e := NextEffect(effects);
      var (lines, later) := Entered(p, history + [outcome.text], Unread(rest, e), LaterEffects(effects));
      ([outcome.text] + lines, out + e.written + later)
  }

  /** The words that stop the shell are entered like any other line; empty lines are not. */
  lemma EnteredText(p: Bytes, history: History, text: Bytes, rest: Bytes, effects: seq<Effect>)
    requires Printable(text)
    ensures var (lines, out) := Entered(p, history, text + [0x0A] + rest, effects);
            if text == [] then (lines, out) == (Entered(p, history, rest, effects).0, p + text + [0x0A] + Entered(p, history, rest, effects).1)
            else
              && lines != [] && lines[0] == text
              && (StopWord(text) ==> lines == [text] && out == p + text + [0x0A])
              && (!StopWord(text) ==>
                    lines[1..] == Entered(p, history + [text], Unread(rest, NextEffect(effects)), LaterEffects(effects)).0)
  {
    TextIsReturned(p, history, text, rest);
    hide FirstEntry, Unread, NextEffect, LaterEffects;
    StopWordsStop(text);
    hide StopWord, Stops;
  }

  /** exit, halt and shutdown */
  predicate StopWord(text: Bytes) {
    || text == [0x65, 0x78, 0x69, 0x74]
    || text == [0x68, 0x61, 0x6C, 0x74]
    || text == [0x73, 0x68, 0x75, 0x74, 0x64, 0x6F, 0x77, 0x6E]
  }

  lemma StopWordsStop(text: Bytes)
    ensures Stops(text) <==> StopWord(text)
  {
  }

  /** With this history, input and effects, the session goes on from what was entered and written so far. */
  ghost predicate StillToCome(whole: (seq<Bytes>, Bytes), p: Bytes, history: History, s: Bytes, effects: seq<Effect>,
                              entered: seq<Bytes>, start: Bytes, out: Bytes) {
    var (lines, later) := Entered(p, history, s, effects);
    whole.0 == entered + lines && start + whole.1 == out + later
  }

  lemma SessionStarts(p: Bytes, history: History, s: Bytes, effects: seq<Effect>, out: Bytes)
    ensures StillToCome(Entered(p, history, s, effects), p, history, s, effects, [], out, out)
  {
    var (lines, later) := Entered(p, history, s, effects);
    hide Entered;
    assert [] + lines == lines;
  }

  lemma NoEffectIsTidy()
    ensures NO_EFFECT.Tidy()
  {
    forall t: Tty | AtLineEnd(t)
      ensures AtLineEnd(Feed(t, []))
    {
      FeedNothing(t);
    }
  }

  lemma UnreadIsNotLonger(s: Bytes, e: Effect)
    ensures |Unread(s, e)| <= |s|
  {
  }

  lemma ThreeParts(out: Bytes, a: Bytes, b: Bytes, c: Bytes)
    ensures out + a + b + c == out + (a + b + c)
  {
    Associative(out, a, b);
    Associative(out, a + b, c);
  }

  lemma LineTurn(whole: (seq<Bytes>, Bytes), p: Bytes, history: History, s: Bytes, effects: seq<Effect>,
                 entered: seq<Bytes>, start: Bytes, out: Bytes)
    requires StillToCome(whole, p, history, s, effects, entered, start, out)
    ensures var (outcome, now, rest) := FirstEntry(p, history, s);
            if outcome == EndOfFile then whole.0 == entered && start + whole.1 == out + now
            else if outcome.text == [] then StillToCome(whole, p, history, rest, effects, entered, start, out + now)
            else if Stops(outcome.text) then whole.0 == entered + [outcome.text] && start + whole.1 == out + now
            else
              var e := NextEffect(effects);
              StillToCome(whole, p, history + [outcome.text], Unread(rest, e), LaterEffects(effects),
                          entered + [outcome.text], start, out + now + e.written)
  {
    var (outcome, now, rest) := FirstEntry(p, history, s);
    hide FirstEntry, Stops, NextEffect, LaterEffects, Unread;
    assert entered + [] == entered;
    if outcome.Line? && outcome.text == [] {
      Associative(out, now, Entered(p, history, rest, effects).1);
    } else if outcome.Line? {
      var e := NextEffect(effects);
      var (lines, later) := Entered(p, history + [outcome.text], Unread(rest, e), LaterEffects(effects));
      ThreeParts(out, now, e.written, later);
      Associative(entered, [outcome.text], lines);
    }
  }

  // ---- The reader itself ----------------------------------------------------------------------------

  class Shell {
    /** What standard input will deliver before it ends, how much of it was read, and all that was written. */
    const input: Bytes
    var pos: nat
    var out: Bytes

    var history: History

    // the locals of read_line
    var prompt: Bytes
    var buf: Bytes
    var cursor: nat
    var savedInput: Bytes
    var historyIndex: nat

    /** What is left of text that stood on the line in front of the prompt. */
    ghost var lead: Bytes

    ghost function Current(): Editor
      reads this
    {
      Editor(buf, cursor, savedInput, historyIndex)
    }

    ghost predicate Ready()
      reads this
    {
      pos <= |input| && SevenBit(input) && PrintableHistory(history)
    }

    /** The terminal shows the prompt and the line being edited, with the cursor in its place, behind the lead. */
    ghost predicate Valid()
      reads this
    {
      && Ready() && Printable(prompt) && Current().Valid(history)
      && Feed(FRESH, out) == Shown(lead + prompt, Current())
    }

    ghost function Rest(): Bytes
      reads this
      requires pos <= |input|
    {
      input[pos..]
    }

    constructor (input: Bytes)
      requires SevenBit(input)
      ensures Ready() && Rest() == input && history == [] && out == []
    {
      this.input := input;
      pos, out, history, prompt, buf, cursor, savedInput, historyIndex := 0, [], [], [], [], 0, [], 0;
      lead := [];
    }

    method SysRead() returns (c: Option<byte>)
      requires pos <= |input|
      modifies this`pos
      ensures pos <= |input|
      ensures old(pos) == |input| ==> c == None && pos == |input|
      ensures old(pos) < |input| ==> c == Some(input[old(pos)]) && pos == old(pos) + 1
    {
      if pos == |input| {
        return None;
      }
      c := Some(input[pos]);
      pos := pos + 1;
    }

    method SysWrite(s: Bytes)
      modifies this`out
      ensures out == old(out) + s
    {
      out := out + s;
    }

    method Redraw()
      requires cursor <= |buf|
      modifies this`out
      ensures out == old(out) + RedrawBytes(prompt, Current())
    {
      hide Digits, Introduced, WipeBytes;
      ghost var before := out;
      SysWrite(WipeBytes() + prompt + buf);
      if cursor < |buf| {
        SysWrite(Introduced(Digits(|buf| - cursor) + ['D' as int]));
      } else {
        assert WipeBytes() + prompt + buf + [] == WipeBytes() + prompt + buf;
      }
    }

    /** Reads on from a byte just read to the first byte that is no parameter. */
    method SkipParameters(first: byte) returns (last: Option<byte>)
      requires 0 < pos <= |input| && first == input[pos - 1]
      modifies this`pos
      ensures pos <= |input|
      ensures var start := old(pos) - 1;
              var n := Parameters(input[start..]);
              if last == None then start + n == |input| else start + n < |input| && pos == start + n + 1
    {
      last := Some(first);
      ghost var start, n := pos - 1, Parameters(input[pos - 1..]);
      ParametersAt(input, start);
      hide IsParameter, Parameters;
      while last.Some? && IsParameter(last.value)
        invariant start < pos <= |input|
        invariant if last == None then pos == |input| == start + n else last.value == input[pos - 1] && pos <= start + n + 1
        decreases |input| - pos, last.Some?
      {
        last := SysRead();
      }
    }

    method ReadSequence() returns (k: Option<Key>)
      requires pos <= |input|
      modifies this`pos
      ensures pos <= |input|
      ensures var next := SequenceKey(old(Rest()));
              && (next == None ==> k == None)
              && (next.Some? ==> k == Some(next.value.0) && Rest() == old(Rest())[next.value.1..])
    {
      ghost var s := Rest();
      var c3 := SysRead();
      if c3 == None {
        return None;
      }
      if c3 == Some('A' as int) { return Some(Up); }
      if c3 == Some('B' as int) { return Some(Down); }
      if c3 == Some('C' as int) { return Some(Right); }
      if c3 == Some('D' as int) { return Some(Left); }
      hide Parameters;
      c3 := SkipParameters(c3.value);
      assert c3.Some? ==> s[Parameters(s) + 1..] == Rest();
      return if c3 == None then None else Some(Nothing);
    }

    /** The key itself, decoded byte by byte; None stands for the end of input. */
    method ReadKey() returns (k: Option<Key>)
      requires pos <= |input|
      modifies this`pos
      ensures pos <= |input|
      ensures var next := NextKey(old(Rest()));
              && (next == None ==> k == None)
              && (next.Some? ==> k == Some(next.value.0) && Rest() == old(Rest())[next.value.1..])
    {
      ghost var s := Rest();
      var c := SysRead();
      if c == None {
        return None;
      }
      var b := c.value;
      if b == LF || b == CR {
        return Some(Enter);
      } else if b == ESC {
        assert s[1..] == Rest();
        var c2 := SysRead();
        if c2 == None {
          return None;
        }
        assert s[2..] == Rest();
        if c2 != Some('[' as int) {
          return Some(Nothing);
        }
        k := ReadSequence();
        return;
      } else if b == 0x7F || b == 0x08 {
        return Some(Erase);
      } else if b == 0x03 {
        return Some(Interrupt);
      } else if b == 0x04 {
        return Some(EndOfInput);
      } else if b >= 0x20 {
        return Some(Insert(b));
      }
      return Some(Nothing);
    }

    /** One editing key: the buffer changes as Apply says and the screen follows. */
    method Edit(k: Key)
      requires Valid() && !Ends(k) && Plain(k)
      modifies this`buf, this`cursor, this`savedInput, this`historyIndex, this`out, this`lead
      ensures Valid()
      ensures Current() == Apply(history, old(Current()), k)
      ensures lead == LeadAfter(old(lead), history, old(Current()), k)
      ensures out == old(out) + EchoBytes(prompt, history, old(Current()), k)
    {
      ApplyKeepsValid(history, Current(), k);
      EchoShows(lead, prompt, history, Current(), k);
      FeedAppend(FRESH, out, EchoBytes(prompt, history, Current(), k));
      hide Feed, Apply, EchoBytes, Printable, LeadAfter, Shown;
      lead := LeadAfter(lead, history, Current(), k);
      if k == Up || k == Down {
        Browse(k);
      } else if k == Left || k == Right {
        MoveCursor(k);
      } else {
        Type(k);
      }
    }

    method Browse(k: Key)
      requires (k == Up || k == Down) && Current().Valid(history)
      modifies this`buf, this`cursor, this`savedInput, this`historyIndex, this`out
      ensures Current() == Apply(history, old(Current()), k)
      ensures out == old(out) + EchoBytes(prompt, history, old(Current()), k)
    {
      assert out + [] == out;
      hide RedrawBytes;
      if k == Up {
        if |history| > 0 && historyIndex > 0 {
          if historyIndex == |history| {
            savedInput := buf;
          }
          historyIndex := historyIndex - 1;
          buf := history[historyIndex];
          cursor := |buf|;
          Redraw();
        }
      } else if historyIndex < |history| {
        historyIndex := historyIndex + 1;
        buf := if historyIndex == |history| then savedInput else history[historyIndex];
        cursor := |buf|;
        Redraw();
      }
    }

    method MoveCursor(k: Key)
      requires (k == Left || k == Right) && Current().Valid(history)
      modifies this`cursor, this`out
      ensures Current() == Apply(history, old(Current()), k)
      ensures out == old(out) + EchoBytes(prompt, history, old(Current()), k)
    {
      assert out + [] == out;
      hide Introduced;
      if k == Right {
        if cursor < |buf| {
          cursor := cursor + 1;
          SysWrite(Introduced(['C' as int]));
        }
      } else if cursor > 0 {
        cursor := cursor - 1;
        SysWrite(Introduced(['D' as int]));
      }
    }

    method Type(k: Key)
      requires !Ends(k) && k != Up && k != Down && k != Left && k != Right && Current().Valid(history)
      modifies this`buf, this`cursor, this`out
      ensures Current() == Apply(history, old(Current()), k)
      ensures out == old(out) + EchoBytes(prompt, history, old(Current()), k)
    {
      assert out + [] == out;
      hide RedrawBytes;
      if k == Erase {
        if cursor > 0 {
          buf := buf[..cursor - 1] + buf[cursor..];
          cursor := cursor - 1;
          Redraw();
        }
      } else if k.Insert? {
        buf := buf[..cursor] + [k.b] + buf[cursor..];
        cursor := cursor + 1;
        if cursor == |buf| {
          SysWrite([k.b]);
        } else {
          Redraw();
        }
      }
    }

    /** The branches that leave the loop: the line, an interrupted line, or the end-of-file error. */
    method Finish(k: Option<Key>) returns (outcome: Outcome)
      requires Valid() && (k.Some? ==> Ends(k.value))
      modifies this`out
      ensures Ready() && outcome == OutcomeOf(k, Current()) && out == old(out) + Farewell(k)
      ensures outcome.Line? ==> k.Some? && Printable(outcome.text) && Feed(FRESH, out) == FRESH
    {
      if k == None || k == Some(EndOfInput) {
        assert out + [] == out;
        return EndOfFile;
      }
      FarewellFreshens(Feed(FRESH, out), k);
      FeedAppend(FRESH, out, Farewell(k));
      if k == Some(Enter) {
        SysWrite([LF]);
        return Line(buf);
      }
      SysWrite(CTRL_C);
      return Line([]);
    }

    /** The prompt, before the loop. */
    method StartLine(p: Bytes)
      requires Ready() && Printable(p) && AtLineEnd(Feed(FRESH, out))
      modifies this`out, this`prompt, this`buf, this`cursor, this`savedInput, this`historyIndex, this`lead
      ensures Valid() && prompt == p && Current() == Start(history) && out == old(out) + p
      ensures lead == Feed(FRESH, old(out)).line
    {
      lead := Feed(FRESH, out).line;
      PromptShows(out, p, history);
      prompt := p;
      SysWrite(prompt);
      buf, cursor, savedInput, historyIndex := [], 0, [], |history|;
    }

    /** One turn of the loop: a key is read, and either edits the line or ends it. */
    method Turn(ghost goal: Goal) returns (outcome: Option<Outcome>)
      requires Valid() && OnTrack(goal, prompt, history, Current(), out, Rest())
      modifies this`pos, this`out, this`buf, this`cursor, this`savedInput, this`historyIndex, this`lead
      ensures Ready()
      ensures outcome == None ==>
                Valid() && OnTrack(goal, prompt, history, Current(), out, Rest()) && |Rest()| < |old(Rest())|
      ensures outcome.Some? ==>
                && outcome.value == OutcomeOf(goal.end, goal.last) && out == goal.out + Farewell(goal.end)
                && (goal.end.Some? ==> Rest() == goal.rest && |Rest()| < |old(Rest())|)
      ensures outcome.Some? && outcome.value.Line? ==>
                goal.end.Some? && Printable(outcome.value.text) && Feed(FRESH, out) == FRESH
    {
      hide LineKeys, RunKeys, EchoAll, EchoBytes, Apply, OnTrack, Feed, NextKey, Printable;
      NextKeyPlain(Rest());
      OnTrackContinues(goal, prompt, history, Current(), out, Rest());
      var k := ReadKey();
      if k == None || Ends(k.value) {
        var last := Finish(k);
        return Some(last);
      }
      Edit(k.value);
      return None;
    }

    /**
      Reads one line behind whatever stands on the terminal's line. What is returned, written and left unread are those of
      the keys of this line.
     */
    method ReadLine(p: Bytes) returns (outcome: Outcome)
      requires Ready() && Printable(p) && AtLineEnd(Feed(FRESH, out))
      modifies this`pos, this`out, this`prompt, this`buf, this`cursor, this`savedInput, this`historyIndex, this`lead
      ensures Ready()
      ensures var (first, now, rest) := FirstEntry(p, history, old(Rest()));
              && outcome == first && out == old(out) + now
              && (LineKeys(old(Rest())).1.Some? ==> Rest() == rest)
      ensures outcome.Line? ==> LineKeys(old(Rest())).1.Some? && Printable(outcome.text)
      ensures outcome.Line? ==> Feed(FRESH, out) == FRESH && |Rest()| < |old(Rest())|
    {
      ghost var (keys, end, rest) := LineKeys(Rest());
      ghost var goal := Goal(out + p + EchoAll(p, history, Start(history), keys), RunKeys(history, Start(history), keys), end, rest);
      ThreeParts(out, p, EchoAll(p, history, Start(history), keys), Farewell(end));
      hide LineKeys, RunKeys, EchoAll, Feed, Printable;
      StartLine(p);
      assert OnTrack(goal, p, history, Current(), out, Rest());
      hide OnTrack, OutcomeOf, Farewell;
      while true
        invariant Valid() && prompt == p && |Rest()| <= |old(Rest())|
        invariant OnTrack(goal, p, history, Current(), out, Rest())
        decreases |Rest()|
      {
        var last := Turn(goal);
        if last.Some? {
          return last.value;
        }
      }
    }

    /** Running a line: its command or expression reads and writes what it likes. */
    method Execute(e: Effect)
      requires Ready() && AtLineEnd(Feed(FRESH, out)) && e.Tidy()
      modifies this`pos, this`out
      ensures Ready() && AtLineEnd(Feed(FRESH, out))
      ensures Rest() == Unread(old(Rest()), e) && out == old(out) + e.written
    {
      FeedAppend(FRESH, out, e.written);
      pos := pos + Min(e.read, |input| - pos);
      SysWrite(e.written);
    }

    /**
      The main loop: lines that are not empty are remembered and run, and 'exit' and its synonyms end
      it. What the lines do when run is given.
     */
    method MainLoop(p: Bytes, effects: seq<Effect>) returns (entered: seq<Bytes>)
      requires Ready() && Printable(p) && AtLineEnd(Feed(FRESH, out))
      requires forall e | e in effects :: e.Tidy()
      modifies this
      ensures Ready()
      ensures var (lines, written) := Entered(p, old(history), old(Rest()), effects);
              entered == lines && out == old(out) + written
      ensures history == old(history) + entered
    {
      ghost var whole := Entered(p, history, Rest(), effects);
      entered := [];
      SessionStarts(p, history, Rest(), effects, out);
      assert history + [] == history;
      NoEffectIsTidy();
      hide LineKeys, FirstEntry, StillToCome, Feed, Printable, Entered, Effect.Tidy, Unread;
      var running, todo := true, effects;
      while running
        invariant Ready() && (running ==> AtLineEnd(Feed(FRESH, out)))
        invariant history == old(history) + entered
        invariant forall e | e in todo :: e.Tidy()
        invariant if running then StillToCome(whole, p, history, Rest(), todo, entered, old(out), out)
                  else whole.0 == entered && out == old(out) + whole.1
        decreases running, |Rest()|
      {
        LineTurn(whole, p, history, Rest(), todo, entered, old(out), out);
        var outcome := ReadLine(p);
        if outcome == EndOfFile {
          running := false;
        } else if outcome.text != [] {
          Associative(old(history), entered, [outcome.text]);
          history := history + [outcome.text];
          entered := entered + [outcome.text];
          if outcome.text == EXIT || outcome.text == HALT || outcome.text == SHUTDOWN {
            running := false;
          } else {
            UnreadIsNotLonger(Rest(), NextEffect(todo));
            Execute(NextEffect(todo));
            todo := LaterEffects(todo);
          }
        }
      }
    }
  }
}
