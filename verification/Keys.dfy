/**
  Key input of the editor's terminal adapter: bytes in, text or curses key codes out. The encoder of
  keys, including UTF-8 (section 3 of RFC 3629), is the reference that decoding must invert.
 */
module Keys {

  import opened Wrappers
  import opened Words

  const LETTER_O: byte := 0x4F

  /** What getch returns for a key: text, or a number. */
  datatype KeyValue = Text(bytes: Bytes) | Number(n: int)

  // ---- Keys and their encodings ---------------------------------------------------------------

  datatype NamedKey =
    | Up | Down | Right | Left | Home | End | BackTab | HomeAlt | Insert | Delete | EndAlt | PageUp | PageDown
    | CtrlRight | CtrlLeft | ShiftRight | ShiftLeft

  datatype Key =
    | Ascii(b: byte)
    | Control(b: byte)
    | Char(cp: nat)
    | Csi(name: NamedKey)
    | Ss3(name: NamedKey)
  {
    /** Every key but a bare ESC. */
    predicate Valid() {
      match this
      case Ascii(b) => 0x20 <= b <= 0x7E
      case Control(b) => (b < 0x20 && b != ESC) || b == 0x7F
      case Char(cp) => IsScalar(cp) && cp >= 0x80
      case Csi(_) => true
      case Ss3(name) => name in {Up, Down, Right, Left, Home, End}
    }

    function Encoding(): Bytes
      requires Valid()
    {
      match this
      case Ascii(b) => [b]
      case Control(b) => [b]
      case Char(cp) => Utf8(cp)
      case Csi(name) => [ESC, BRACKET] + CsiLetters(name)
      case Ss3(name) => [ESC, LETTER_O] + CsiLetters(name)
    }

    function Value(): KeyValue
      requires Valid()
    {
      match this
      case Ascii(b) => Text([b])
      case Control(b) => Number(b)
      case Char(cp) => Text(Utf8(cp))
      case Csi(name) => Number(Code(name))
      case Ss3(name) => Number(Code(name))
    }
  }

  /** What follows ESC [ on the wire; the plain arrows, Home and End also follow ESC O. */
  function CsiLetters(k: NamedKey): Bytes {
    match k
    case Up => ['A' as int]
    case Down => ['B' as int]
    case Right => ['C' as int]
    case Left => ['D' as int]
    case Home => ['H' as int]
    case End => ['F' as int]
    case BackTab => ['Z' as int]
    case HomeAlt => ['1' as int, '~' as int]
    case Insert => ['2' as int, '~' as int]
    case Delete => ['3' as int, '~' as int]
    case EndAlt => ['4' as int, '~' as int]
    case PageUp => ['5' as int, '~' as int]
    case PageDown => ['6' as int, '~' as int]
    case CtrlRight => ['1' as int, ';' as int, '5' as int, 'C' as int]
    case CtrlLeft => ['1' as int, ';' as int, '5' as int, 'D' as int]
    case ShiftRight => ['1' as int, ';' as int, '2' as int, 'C' as int]
    case ShiftLeft => ['1' as int, ';' as int, '2' as int, 'D' as int]
  }

  /** The key codes of the curses library, and the editor's own for modified arrows. */
  function Code(k: NamedKey): int {
    match k
    case Up => 259
    case Down => 258
    case Right => 261
    case Left => 260
    case Home => 262
    case End => 360
    case BackTab => 353
    case HomeAlt => 262
    case Insert => 331
    case Delete => 330
    case EndAlt => 360
    case PageUp => 339
    case PageDown => 338
    case CtrlRight => 561
    case CtrlLeft => 546
    case ShiftRight => 402
    case ShiftLeft => 393
  }

  /** A code point that UTF-8 encodes: no surrogate, nothing above the Unicode range. */
  predicate IsScalar(cp: nat) { cp < 0xD800 || 0xE000 <= cp <= 0x10FFFF }

  function Utf8(cp: nat): Bytes
    requires IsScalar(cp)
  {
    if cp < 0x80 then [cp]
    else if cp < 0x800 then [0xC0 + cp / 0x40, 0x80 + cp % 0x40]
    else if cp < 0x10000 then [0xE0 + cp / 0x1000, 0x80 + cp / 0x40 % 0x40, 0x80 + cp % 0x40]
    else [0xF0 + cp / 0x40000, 0x80 + cp / 0x1000 % 0x40, 0x80 + cp / 0x40 % 0x40, 0x80 + cp % 0x40]
  }

  /** The bits of a byte below a power of two. */
  function Low(b: byte, d: nat): nat
    requires d > 0
  {
    b % d
  }

  /** The code point of a character, put together from the low bits of its bytes. */
  function CodePoint(s: Bytes): nat
    requires 1 <= |s| <= 4
  {
    if s[0] < 0x80 then s[0]
    else match |s|
      case 2 => Low(s[0], 0x20) * 0x40 + Low(s[1], 0x40)
      case 3 => Low(s[0], 0x10) * 0x1000 + Low(s[1], 0x40) * 0x40 + Low(s[2], 0x40)
      case 4 => Low(s[0], 0x08) * 0x40000 + Low(s[1], 0x40) * 0x1000 + Low(s[2], 0x40) * 0x40 + Low(s[3], 0x40)
      case _ => 0
  }

  /** The text delivered for a character is that character. */
  lemma CodePointOfUtf8(cp: nat)
    requires IsScalar(cp)
    ensures var s := Utf8(cp);
            && 1 <= |s| <= 4
            && CodePoint(s) == cp
  {
    hide Low;
    var a, b, c := cp % 0x40, cp / 0x40 % 0x40, cp / 0x1000 % 0x40;
    Sextets(cp);
    LowOf(0x80, 0x40, a);
    LowOf(0x80, 0x40, b);
    LowOf(0x80, 0x40, c);
    if 0x80 <= cp < 0x800 {
      LowOf(0xC0, 0x20, cp / 0x40);
    } else if 0x800 <= cp < 0x10000 {
      LowOf(0xE0, 0x10, cp / 0x1000);
    } else if cp >= 0x10000 {
      LowOf(0xF0, 0x08, cp / 0x40000);
    }
  }

  lemma Sextets(cp: nat)
    ensures cp == cp / 0x40 * 0x40 + cp % 0x40
    ensures cp / 0x40 == cp / 0x1000 * 0x40 + cp / 0x40 % 0x40
    ensures cp / 0x1000 == cp / 0x40000 * 0x40 + cp / 0x1000 % 0x40
  {
  }

  lemma LowOf(high: nat, d: nat, low: nat)
    requires high + low < 256 && low < d
    requires (high == 0xC0 && d == 0x20) || (high == 0x80 && d == 0x40) || (high == 0xE0 && d == 0x10) || (high == 0xF0 && d == 0x08)
    ensures Low(high + low, d) == low
  {
  }

  // ---- Decoding, as a function of the bytes to come ---------------------------------------------

  /** Bytes up to and including the first final byte, or all of them. */
  function SequenceLength(s: Bytes): (n: nat)
    ensures n <= |s|
  {
    if s == [] then 0
    else if 0x40 <= s[0] <= 0x7E then 1
    else 1 + SequenceLength(s[1..])
  }

  function CsiValue(params: Bytes): int {
    if params == ['A' as int] then 259
    else if params == ['B' as int] then 258
    else if params == ['C' as int] then 261
    else if params == ['D' as int] then 260
    else if params == ['H' as int] then 262
    else if params == ['F' as int] then 360
    else if params == ['Z' as int] then 353
    else if params == ['1' as int, '~' as int] then 262
    else if params == ['2' as int, '~' as int] then 331
    else if params == ['3' as int, '~' as int] then 330
    else if params == ['4' as int, '~' as int] then 360
    else if params == ['5' as int, '~' as int] then 339
    else if params == ['6' as int, '~' as int] then 338
    else if params == ['1' as int, ';' as int, '5' as int, 'C' as int] then 561
    else if params == ['1' as int, ';' as int, '5' as int, 'D' as int] then 546
    else if params == ['1' as int, ';' as int, '2' as int, 'C' as int] then 402
    else if params == ['1' as int, ';' as int, '2' as int, 'D' as int] then 393
    else ESC
  }

  function Ss3Value(b: byte): int {
    if b == 0x41 then 259
    else if b == 0x42 then 258
    else if b == 0x43 then 261
    else if b == 0x44 then 260
    else if b == 0x48 then 262
    else if b == 0x46 then 360
    else ESC
  }

  /** The key codes, byte for byte: those of the curses library, and the editor's own for modified arrows. */
  lemma CsiCodes()
    ensures CsiValue([0x41]) == 259 && CsiValue([0x42]) == 258 && CsiValue([0x43]) == 261 && CsiValue([0x44]) == 260
    ensures CsiValue([0x48]) == 262 && CsiValue([0x46]) == 360 && CsiValue([0x5A]) == 353
    ensures CsiValue([0x31, 0x7E]) == 262 && CsiValue([0x32, 0x7E]) == 331 && CsiValue([0x33, 0x7E]) == 330
    ensures CsiValue([0x34, 0x7E]) == 360 && CsiValue([0x35, 0x7E]) == 339 && CsiValue([0x36, 0x7E]) == 338
    ensures CsiValue([0x31, 0x3B, 0x35, 0x43]) == 561 && CsiValue([0x31, 0x3B, 0x35, 0x44]) == 546
    ensures CsiValue([0x31, 0x3B, 0x32, 0x43]) == 402 && CsiValue([0x31, 0x3B, 0x32, 0x44]) == 393
    ensures Ss3Value(0x41) == 259 && Ss3Value(0x42) == 258 && Ss3Value(0x43) == 261 && Ss3Value(0x44) == 260
    ensures Ss3Value(0x48) == 262 && Ss3Value(0x46) == 360
  {
    assert [0x41][0] != [0x42][0];
  }

  /** A sequence that encodes no key is taken for ESC, whatever its length. */
  lemma UnknownIsEscape(params: Bytes, b: byte)
    ensures CsiValue(params) == 0x1B <==> forall k: NamedKey :: params != CsiLetters(k)
    ensures Ss3Value(b) == 0x1B <==> b !in {0x41, 0x42, 0x43, 0x44, 0x48, 0x46}
  {
    if CsiValue(params) == 0x1B {
      forall k: NamedKey
        ensures params != CsiLetters(k)
      {
        NamedKeyDecodes(k);
      }
    } else {
      var k := NamedBy(params);
      assert params == CsiLetters(k);
    }
  }

  /** The key that a known sequence names. */
  function NamedBy(params: Bytes): (k: NamedKey)
    requires CsiValue(params) != 0x1B
    ensures params == CsiLetters(k)
  {
    if params == ['A' as int] then Up
    else if params == ['B' as int] then Down
    else if params == ['C' as int] then Right
    else if params == ['D' as int] then Left
    else if params == ['H' as int] then Home
    else if params == ['F' as int] then End
    else if params == ['Z' as int] then BackTab
    else if params == ['1' as int, '~' as int] then HomeAlt
    else if params == ['2' as int, '~' as int] then Insert
    else if params == ['3' as int, '~' as int] then Delete
    else if params == ['4' as int, '~' as int] then EndAlt
    else if params == ['5' as int, '~' as int] then PageUp
    else if params == ['6' as int, '~' as int] then PageDown
    else if params == ['1' as int, ';' as int, '5' as int, 'C' as int] then CtrlRight
    else if params == ['1' as int, ';' as int, '5' as int, 'D' as int] then CtrlLeft
    else if params == ['1' as int, ';' as int, '2' as int, 'C' as int] then ShiftRight
    else ShiftLeft
  }

  /** Length of the character that a byte announces; 0 when it announces none. */
  function Expected(first: byte): nat {
    if And(first, 0xE0) == 0xC0 then 2
    else if And(first, 0xF0) == 0xE0 then 3
    else if And(first, 0xF8) == 0xF0 then 4
    else 0
  }

  predicate IsContinuation(b: byte) { And(b, 0xC0) == 0x80 }

  /** How many of the next bytes, at most n, continue a character. */
  function Continuations(s: Bytes, n: nat): (k: nat)
    ensures k <= n && k <= |s|
  {
    if n == 0 || s == [] || !IsContinuation(s[0]) then 0 else 1 + Continuations(s[1..], n - 1)
  }

  /** Up to n continuation bytes, and what follows; a byte that breaks them off is dropped. */
  function CharTail(s: Bytes, n: nat): (Bytes, Bytes) {
    var k := Continuations(s, n);
    (s[..k], s[Min(|s|, if k == n then k else k + 1)..])
  }

  /** A character from its first byte on. */
  function GetChar(first: byte, rest: Bytes): (KeyValue, Bytes) {
    var expected := Expected(first);
    if expected == 0 then (Number(first), rest)
    else
      var (tail, after) := CharTail(rest, expected - 1);
      (Text([first] + tail), after)
  }

  /** What ESC and the byte after it begin; unless that is a known introducer, the byte is lost. */
  function AfterEscape(b: byte, rest: Bytes): (KeyValue, Bytes) {
    if b == BRACKET then
      var n := SequenceLength(rest);
      (Number(CsiValue(rest[..n])), rest[n..])
    else if b == LETTER_O then
      if rest == [] then (Number(ESC), []) else (Number(Ss3Value(rest[0])), rest[1..])
    else (Number(ESC), rest)
  }

  /** The key that begins with byte b, and what is left of the bytes after it. */
  function Interpret(b: byte, rest: Bytes): (KeyValue, Bytes) {
    if b == ESC then
      if rest == [] then (Number(ESC), []) else AfterEscape(rest[0], rest[1..])
    else if b >= 0x80 then GetChar(b, rest)
    else if 0x20 <= b <= 0x7E then (Text([b]), rest)
    else (Number(b), rest)
  }

  /** The value of the next key and the bytes after it; None at the end of input. */
  function Getch(s: Bytes): (Option<KeyValue>, Bytes) {
    if s == [] then (None, [])
    else
      var (v, rest) := Interpret(s[0], s[1..]);
      (Some(v), rest)
  }

  /** A mask of high bits leaves the multiple of its lowest bit. */
  lemma HighBits(b: byte)
    ensures And(b, 0xC0) == Cleared(b, 0x40) && And(b, 0xE0) == Cleared(b, 0x20)
    ensures And(b, 0xF0) == Cleared(b, 0x10) && And(b, 0xF8) == Cleared(b, 0x08)
  {
    assert Pow2(3) == 8 && Pow2(4) == 16;
    Pow2Add(4, 1);
    Pow2Add(4, 2);
    Pow2Add(4, 4);
    AndHighMask(b, 8, 3);
    AndHighMask(b, 8, 4);
    AndHighMask(b, 8, 5);
    AndHighMask(b, 8, 6);
  }

  lemma {:induction false} ClearedIs(x: nat, d: nat, q: nat)
    requires d > 0
    ensures Cleared(x, d) == d * q <==> d * q <= x < d * (q + 1)
  {
    var r := Cleared(x, d);
    ClearedIsMultiple(x, d);
    assert r == d * (r / d);
    if r / d < q {
      MulMonotone(r / d + 1, q, d);
    } else if r / d > q {
      MulMonotone(q + 1, r / d, d);
    }
  }

  lemma LeadBytes(b: byte)
    ensures Expected(b) == if 0xC0 <= b < 0xE0 then 2 else if 0xE0 <= b < 0xF0 then 3 else if 0xF0 <= b < 0xF8 then 4 else 0
    ensures IsContinuation(b) <==> 0x80 <= b < 0xC0
  {
    HighBits(b);
    ClearedIs(b, 0x20, 6);
    ClearedIs(b, 0x10, 14);
    ClearedIs(b, 0x08, 30);
    ClearedIs(b, 0x40, 2);
  }

  // ---- Decoding inverts encoding ----------------------------------------------------------------

  lemma {:induction false} SequenceLengthOf(letters: Bytes, rest: Bytes)
    requires |letters| > 0 && 0x40 <= letters[|letters| - 1] <= 0x7E
    requires forall i | 0 <= i < |letters| - 1 :: !(0x40 <= letters[i] <= 0x7E)
    ensures SequenceLength(letters + rest) == |letters|
  {
    if |letters| > 1 {
      SequenceLengthOf(letters[1..], rest);
      assert (letters + rest)[1..] == letters[1..] + rest;
    }
  }

  lemma SequenceLengthUnfolds(s: Bytes)
    ensures SequenceLength(s) == if s == [] then 0 else if 0x40 <= s[0] <= 0x7E then 1 else 1 + SequenceLength(s[1..])
  {
  }

  lemma NamedKeyDecodes(k: NamedKey)
    ensures var letters := CsiLetters(k);
            && |letters| > 0 && 0x40 <= letters[|letters| - 1] <= 0x7E
            && (forall i | 0 <= i < |letters| - 1 :: !(0x40 <= letters[i] <= 0x7E))
            && CsiValue(letters) == Code(k)
  {
    var letters := CsiLetters(k);
    if |letters| > 1 {
      var a, b := letters[0], letters[1];
    }
  }

  lemma {:induction false} ContinuationsOf(tail: Bytes, rest: Bytes)
    requires forall b | b in tail :: 0x80 <= b < 0xC0
    ensures Continuations(tail + rest, |tail|) == |tail|
  {
    if tail != [] {
      assert tail[0] in tail && forall b | b in tail[1..] :: b in tail;
      LeadBytes(tail[0]);
      ContinuationsOf(tail[1..], rest);
      assert (tail + rest)[1..] == tail[1..] + rest;
    }
  }

  lemma ContinuationsUnfold(s: Bytes, n: nat)
    ensures Continuations(s, n) == if n == 0 || s == [] || !IsContinuation(s[0]) then 0 else 1 + Continuations(s[1..], n - 1)
  {
  }

  /** After i continuation bytes of s, these were gathered, that is left, and the others are still to come. */
  ghost predicate Gathering(s: Bytes, n: nat, i: nat, tail: Bytes, rest: Bytes) {
    && i <= n && i <= |s| && tail == s[..i] && rest == s[i..]
    && Continuations(s, n) == i + Continuations(rest, n - i)
  }

  lemma GatherStarts(s: Bytes, n: nat)
    ensures Gathering(s, n, 0, [], s)
  {
    hide Continuations;
    assert s[0..] == s;
  }

  lemma GatherOn(s: Bytes, n: nat, i: nat, tail: Bytes, rest: Bytes)
    requires Gathering(s, n, i, tail, rest) && i < n
    ensures rest == [] ==> CharTail(s, n) == (tail, [])
    ensures rest != [] && !IsContinuation(rest[0]) ==> CharTail(s, n) == (tail, rest[1..])
    ensures rest != [] && IsContinuation(rest[0]) ==> Gathering(s, n, i + 1, tail + [rest[0]], rest[1..])
  {
    ContinuationsUnfold(rest, n - i);
    hide Continuations, IsContinuation;
    if rest != [] {
      TakeNext(s, i);
    }
  }

  lemma GatherEnds(s: Bytes, n: nat, tail: Bytes, rest: Bytes)
    requires Gathering(s, n, n, tail, rest)
    ensures CharTail(s, n) == (tail, rest)
  {
    ContinuationsUnfold(rest, 0);
    hide Continuations;
  }

  lemma Utf8Shape(cp: nat)
    requires IsScalar(cp) && cp >= 0x80
    ensures var s := Utf8(cp);
            && 2 <= |s| <= 4 && s[0] >= 0xC0 && Expected(s[0]) == |s|
            && forall b | b in s[1..] :: 0x80 <= b < 0xC0
  {
    LeadBytes(Utf8(cp)[0]);
    hide Expected;
  }

  lemma CharDecodes(cp: nat, rest: Bytes)
    requires IsScalar(cp) && cp >= 0x80
    ensures Getch(Utf8(cp) + rest) == (Some(Text(Utf8(cp))), rest)
  {
    var s := Utf8(cp);
    Utf8Shape(cp);
    hide Utf8, Expected, Continuations;
    var tail := s[1..];
    ContinuationsOf(tail, rest);
    assert (s + rest)[0] == s[0] && (s + rest)[1..] == tail + rest;
    assert (tail + rest)[..|tail|] == tail && (tail + rest)[|tail|..] == rest && [s[0]] + tail == s;
    assert GetChar(s[0], tail + rest) == (Text(s), rest);
    hide GetChar;
  }

  lemma CsiDecodes(name: NamedKey, rest: Bytes)
    ensures Getch([ESC, BRACKET] + CsiLetters(name) + rest) == (Some(Number(Code(name))), rest)
  {
    var letters := CsiLetters(name);
    NamedKeyDecodes(name);
    SequenceLengthOf(letters, rest);
    var s := [ESC, BRACKET] + letters + rest;
    hide *;
    assert s[2..] == letters + rest && (letters + rest)[..|letters|] == letters;
    assert s[2 + |letters|..] == rest;
    CsiGetch(s);
  }

  lemma CsiGetch(s: Bytes)
    requires |s| >= 2 && s[0] == ESC && s[1] == BRACKET
    ensures var n := SequenceLength(s[2..]);
            Getch(s) == (Some(Number(CsiValue(s[2..][..n]))), s[2 + n..])
  {
  }

  lemma Ss3Decodes(name: NamedKey, rest: Bytes)
    requires Ss3(name).Valid()
    ensures Getch([ESC, LETTER_O] + CsiLetters(name) + rest) == (Some(Number(Code(name))), rest)
  {
    var s := [ESC, LETTER_O] + CsiLetters(name) + rest;
    assert s[3..] == rest && s[2] == CsiLetters(name)[0];
    assert Ss3Value(s[2]) == Code(name);
  }

  /** One call of getch consumes exactly one encoding and returns the key it encodes. */
  lemma GetchInverts(k: Key, rest: Bytes)
    requires k.Valid()
    ensures Getch(k.Encoding() + rest) == (Some(k.Value()), rest)
  {
    match k
    case Ascii(b) =>
      assert ([b] + rest)[1..] == rest;
    case Control(b) =>
      assert ([b] + rest)[1..] == rest;
    case Char(cp) =>
      CharDecodes(cp, rest);
    case Csi(name) =>
      CsiDecodes(name, rest);
    case Ss3(name) =>
      Ss3Decodes(name, rest);
  }

  function EncodeAll(keys: seq<Key>): Bytes
    requires forall k | k in keys :: k.Valid()
  {
    if keys == [] then [] else keys[0].Encoding() + EncodeAll(keys[1..])
  }

  function GetchAll(s: Bytes, n: nat): (seq<Option<KeyValue>>, Bytes)
    decreases n
  {
    if n == 0 then ([], s)
    else
      var (v, rest) := Getch(s);
      var (vs, end) := GetchAll(rest, n - 1);
      ([v] + vs, end)
  }

  function ValuesOf(keys: seq<Key>): (vs: seq<Option<KeyValue>>)
    requires forall k | k in keys :: k.Valid()
  {
    if keys == [] then [] else [Some(keys[0].Value())] + ValuesOf(keys[1..])
  }

  /** Any list of keys comes back from its encodings, one call a key, with nothing left over. */
  lemma {:induction false} DecodingInvertsEncoding(keys: seq<Key>, rest: Bytes)
    requires forall k | k in keys :: k.Valid()
    ensures GetchAll(EncodeAll(keys) + rest, |keys|) == (ValuesOf(keys), rest)
  {
    if keys == [] {
      assert EncodeAll(keys) + rest == rest;
    } else {
      DecodingInvertsEncoding(keys[1..], rest);
      OneMoreKey(keys, rest, GetchAll(EncodeAll(keys[1..]) + rest, |keys| - 1));
    }
  }

  /** The first key comes back in front of whatever is decoded from the others. */
  lemma OneMoreKey(keys: seq<Key>, rest: Bytes, later: (seq<Option<KeyValue>>, Bytes))
    requires keys != [] && forall k | k in keys :: k.Valid()
    requires later == GetchAll(EncodeAll(keys[1..]) + rest, |keys| - 1)
    ensures GetchAll(EncodeAll(keys) + rest, |keys|) == ([Some(keys[0].Value())] + later.0, later.1)
    ensures ValuesOf(keys) == [Some(keys[0].Value())] + ValuesOf(keys[1..])
  {
    EncodingUnfolds(keys);
    Associative(keys[0].Encoding(), EncodeAll(keys[1..]), rest);
    GetchInverts(keys[0], EncodeAll(keys[1..]) + rest);
    hide Getch, EncodeAll, Key.Valid, Key.Encoding, Key.Value;
    GetchAllUnfolds(EncodeAll(keys) + rest, |keys|);
    hide GetchAll;
  }

  lemma EncodingUnfolds(keys: seq<Key>)
    requires keys != [] && forall k | k in keys :: k.Valid()
    ensures EncodeAll(keys) == keys[0].Encoding() + EncodeAll(keys[1..])
  {
  }

  lemma GetchAllUnfolds(s: Bytes, n: nat)
    requires n > 0
    ensures var (v, rest) := Getch(s);
            GetchAll(s, n) == ([v] + GetchAll(rest, n - 1).0, GetchAll(rest, n - 1).1)
  {
    hide Getch;
  }

  /** A character broken off by another byte, or by the end of input, is delivered as far as it came; that byte is lost. */
  lemma BrokenCharacter(first: byte, tail: Bytes, b: byte, rest: Bytes)
    requires 0xC0 <= first < 0xF8 && |tail| < (if first < 0xE0 then 1 else if first < 0xF0 then 2 else 3)
    requires (forall c | c in tail :: 0x80 <= c < 0xC0) && !(0x80 <= b < 0xC0)
    ensures Getch([first] + tail + ([b] + rest)) == (Some(Text([first] + tail)), rest)
    ensures Getch([first] + tail) == (Some(Text([first] + tail)), [])
  {
    LeadBytes(first);
    LeadBytes(b);
    hide Expected, CharTail, IsContinuation, Getch;
    BrokenTail(tail, [b] + rest, Expected(first) - 1);
    BrokenTail(tail, [], Expected(first) - 1);
    assert ([b] + rest)[1..] == rest && tail + [] == tail;
    CharacterRead(first, tail + ([b] + rest), tail, rest);
    CharacterRead(first, tail, tail, []);
    Associative([first], tail, [b] + rest);
  }

  /** A lead byte and what its tail is read as. */
  lemma CharacterRead(first: byte, s: Bytes, tail: Bytes, after: Bytes)
    requires first >= 0x80 && Expected(first) > 0 && CharTail(s, Expected(first) - 1) == (tail, after)
    ensures Getch([first] + s) == (Some(Text([first] + tail)), after)
  {
    hide Expected, CharTail;
    assert ([first] + s)[0] == first && ([first] + s)[1..] == s;
  }

  lemma BrokenTail(tail: Bytes, rest: Bytes, n: nat)
    requires |tail| < n && (forall c | c in tail :: 0x80 <= c < 0xC0) && (rest != [] ==> !IsContinuation(rest[0]))
    ensures CharTail(tail + rest, n) == (tail, if rest == [] then [] else rest[1..])
  {
    ContinuationsStop(tail, rest, n);
    hide Continuations, IsContinuation;
    var s := tail + rest;
    assert s[..|tail|] == tail;
    if rest != [] {
      assert s[|tail| + 1..] == rest[1..];
    } else {
      assert s[|s|..] == [];
    }
  }

  lemma {:induction false} ContinuationsStop(tail: Bytes, rest: Bytes, n: nat)
    requires |tail| < n && (forall c | c in tail :: 0x80 <= c < 0xC0) && (rest != [] ==> !IsContinuation(rest[0]))
    ensures Continuations(tail + rest, n) == |tail|
  {
    if tail == [] {
      assert tail + rest == rest;
    } else {
      assert tail[0] in tail && forall c | c in tail[1..] :: c in tail;
      LeadBytes(tail[0]);
      ContinuationsStop(tail[1..], rest, n - 1);
      assert (tail + rest)[1..] == tail[1..] + rest;
      ContinuationsUnfold(tail + rest, n);
      hide Continuations, IsContinuation;
    }
  }

  /** A byte that starts no character is delivered as a number, and nothing else is taken. */
  lemma StrayByte(b: byte, rest: Bytes)
    requires 0x80 <= b < 0xC0 || b >= 0xF8
    ensures Getch([b] + rest) == (Some(Number(b)), rest)
  {
    LeadBytes(b);
    assert ([b] + rest)[1..] == rest;
    hide Expected, CharTail;
  }

  /** ESC and a byte that introduces nothing, or an unknown one behind ESC O, is ESC; both bytes are taken. */
  lemma EscapesRead(b: byte, rest: Bytes)
    ensures b != 0x5B && b != 0x4F ==> Getch([0x1B, b] + rest) == (Some(Number(27)), rest)
    ensures b !in {0x41, 0x42, 0x43, 0x44, 0x48, 0x46} ==> Getch([0x1B, 0x4F, b] + rest) == (Some(Number(27)), rest)
    ensures Getch([0x1B]) == Getch([0x1B, 0x4F]) == (Some(Number(27)), []) && Getch([]) == (None, [])
  {
    var s, t := [0x1B, b] + rest, [0x1B, 0x4F, b] + rest;
    assert s[1..][0] == b && s[1..][1..] == rest;
    assert t[1..][0] == 0x4F && t[1..][1..][0] == b && t[1..][1..][1..] == rest;
    assert [0x1B, 0x4F][1..][0] == 0x4F && [0x1B, 0x4F][1..][1..] == [] && [0x1B][1..] == [];
    hide GetChar, SequenceLength, CsiValue;
  }

  /** A bare ESC takes the byte after it along, so it leaves what follows intact only at the end of input. */
  lemma BareEscapeLosesInput(s: Bytes)
    ensures Getch([ESC] + s).1 == s <==> s == []
  {
    if s != [] {
      assert |Getch([ESC] + s).1| < |s|;
    }
  }

  // ---- The adapter's input methods -------------------------------------------------------------

  class KeyReader {
    /** What standard input will deliver before it ends, and how much of it was read. */
    const input: Bytes
    var pos: nat

    /** Set after a bare ESC, and never delivered. */
    var pendingByte: Option<byte>

    ghost predicate Valid()
      reads this
    {
      pos <= |input|
    }

    ghost function Rest(): Bytes
      reads this
      requires Valid()
    {
      input[pos..]
    }

    constructor (input: Bytes)
      ensures Valid() && Rest() == input && pendingByte == None
    {
      this.input, pos, pendingByte := input, 0, None;
    }

    method ReadByte() returns (b: Option<byte>)
      requires Valid()
      modifies this`pos
      ensures Valid()
      ensures old(Rest()) == [] ==> b == None && Rest() == []
      ensures old(Rest()) != [] ==> b == Some(old(Rest())[0]) && Rest() == old(Rest())[1..]
    {
      if pos == |input| {
        return None;
      }
      b := Some(input[pos]);
      pos := pos + 1;
    }

    method ReadCsiSequence() returns (n: int)
      requires Valid()
      modifies this`pos
      ensures Valid()
      ensures var s := old(Rest()); n == CsiValue(s[..SequenceLength(s)]) && Rest() == s[SequenceLength(s)..]
    {
      ghost var s := Rest();
      hide CsiValue, SequenceLength;
      SequenceLengthUnfolds(s);
      var params: Bytes := [];
      ghost var k := 0;
      while true
        invariant Valid() && k <= |s| && params == s[..k] && Rest() == s[k..]
        invariant SequenceLength(s) == k + SequenceLength(s[k..])
        decreases |s| - k
      {
        SequenceLengthUnfolds(s[k..]);
        var b := ReadByte();
        if b == None {
          break;
        }
        TakeNext(s, k);
        params := params + [b.value];
        k := k + 1;
        if 0x40 <= b.value <= 0x7E {
          break;
        }
      }
      n := CsiValue(params);
    }

    method ReadSs3Sequence() returns (n: int)
      requires Valid()
      modifies this`pos
      ensures Valid()
      ensures var s := old(Rest()); n == (if s == [] then ESC else Ss3Value(s[0])) && Rest() == s[Min(1, |s|)..]
    {
      var b := ReadByte();
      if b == None {
        return ESC;
      }
      n := Ss3Value(b.value);
    }

    /** Up to n continuation bytes; the byte that breaks them off is consumed. */
    method ReadContinuations(n: nat) returns (tail: Bytes)
      requires Valid()
      modifies this`pos
      ensures Valid()
      ensures (tail, Rest()) == CharTail(old(Rest()), n)
    {
      ghost var s := Rest();
      hide IsContinuation, CharTail, Gathering;
      tail := [];
      var i := 0;
      GatherStarts(s, n);
      while i < n
        invariant Valid() && i <= n && Gathering(s, n, i, tail, Rest())
      {
        GatherOn(s, n, i, tail, Rest());
        var b := ReadByte();
        if b == None || !IsContinuation(b.value) {
          return;
        }
        tail := tail + [b.value];
        i := i + 1;
      }
      GatherEnds(s, n, tail, Rest());
    }

    method ReadUtf8Char(first: byte) returns (v: KeyValue)
      requires Valid()
      modifies this`pos
      ensures Valid() && GetChar(first, old(Rest())) == (v, Rest())
    {
      hide Expected, CharTail;
      var expected := Expected(first);
      if expected == 0 {
        return Number(first);
      }
      var tail := ReadContinuations(expected - 1);
      v := Text([first] + tail);
    }

    method HandleInputByte(b: byte) returns (v: KeyValue)
      requires Valid()
      modifies this
      ensures Valid() && Interpret(b, old(Rest())) == (v, Rest())
    {
      hide CsiValue, SequenceLength, Ss3Value, GetChar;
      if b == ESC {
        var b2 := ReadByte();
        if b2 == None {
          return Number(b);
        }
        if b2 == Some(BRACKET) {
          var n := ReadCsiSequence();
          return Number(n);
        } else if b2 == Some(LETTER_O) {
          var n := ReadSs3Sequence();
          return Number(n);
        } else {
          pendingByte := b2;
          return Number(b);
        }
      }
      if pendingByte.Some? {
        pendingByte := None;
      }
      if b >= 0x80 {
        v := ReadUtf8Char(b);
        return;
      }
      if 0x20 <= b <= 0x7E {
        return Text([b]);
      }
      return Number(b);
    }

    method GetKey() returns (v: Option<KeyValue>)
      requires Valid()
      modifies this
      ensures Valid() && (v, Rest()) == Getch(old(Rest()))
    {
      hide Interpret;
      var b := ReadByte();
      if b == None {
        return None;
      }
      var k := HandleInputByte(b.value);
      v := Some(k);
    }

    method ReadMany(n: nat) returns (vs: seq<Option<KeyValue>>)
      requires Valid()
      modifies this
      ensures Valid() && (vs, Rest()) == GetchAll(old(Rest()), n)
      decreases n
    {
      hide Getch;
      if n == 0 {
        return [];
      }
      var v := GetKey();
      var more := ReadMany(n - 1);
      vs := [v] + more;
    }

    /** Repeated calls over the encodings of a list of keys return that list. */
    method ReadKeys(ghost keys: seq<Key>, n: nat, ghost rest: Bytes) returns (vs: seq<Option<KeyValue>>)
      requires Valid() && n == |keys| && forall k | k in keys :: k.Valid()
      requires Rest() == EncodeAll(keys) + rest
      modifies this
      ensures Valid() && vs == ValuesOf(keys) && Rest() == rest
    {
      DecodingInvertsEncoding(keys, rest);
      hide EncodeAll, ValuesOf, GetchAll;
      vs := ReadMany(n);
    }
  }
}
