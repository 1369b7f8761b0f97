/**
  The grammar of text and control sequences that the console understands (after section 5.4 of
  ECMA-48), given declaratively: a stream is cut into items, the body of a control sequence is
  split at its semicolons, and every field is read as a decimal number. Nothing here is a state
  machine.
 */
module Ansi {

  import opened Wrappers
  import opened Words

  const SEMICOLON: byte := 0x3B
  const MAX_PARAMS := 8
  const INT_LIMIT: nat := 0x8000_0000

  /** A call of the text output device. */
  datatype Action =
    | Glyph(units: seq<byte>)
    | SetCursor(column: nat, row: nat)
    | ClearScreen
    | SetAttribute(attr: nat)

  predicate IsDigit(b: byte) { 0x30 <= b <= 0x39 }

  /** Private markers and the intermediate that are skipped: '?', '>', '=' and space. */
  predicate IsSkipped(b: byte) { b == 0x3F || b == 0x3E || b == 0x3D || b == 0x20 }

  predicate IsBody(b: byte) { IsDigit(b) || b == SEMICOLON || IsSkipped(b) }

  predicate IsFinal(b: byte) { 0x40 <= b <= 0x7E }

  // ---- Fields -------------------------------------------------------------------------------

  function WithoutSkipped(s: Bytes): Bytes {
    if s == [] then []
    else (if IsSkipped(s[0]) then [] else [s[0]]) + WithoutSkipped(s[1..])
  }

  function Split(s: Bytes): (fields: seq<Bytes>)
    ensures |fields| > 0
  {
    if s == [] then [[]]
    else
      var rest := Split(s[1..]);
      if s[0] == SEMICOLON then [[]] + rest else [[s[0]] + rest[0]] + rest[1..]
  }

  function Fields(body: Bytes): (fields: seq<Bytes>)
    ensures |fields| > 0
  {
    Split(WithoutSkipped(body))
  }

  function Decimal(digits: Bytes): nat {
    if digits == [] then 0
    else
      var d := digits[|digits| - 1];
      Decimal(digits[..|digits| - 1]) * 10 + if d >= 0x30 then d - 0x30 else 0
  }

  /** An empty field has no value of its own. */
  function Value(field: Bytes): Option<nat> {
    if field == [] then None else Some(Decimal(field))
  }

  function Values(fields: seq<Bytes>): (values: seq<Option<nat>>)
    ensures |values| == |fields|
    ensures forall i | 0 <= i < |fields| :: values[i] == Value(fields[i])
  {
    seq(|fields|, i requires 0 <= i < |fields| => Value(fields[i]))
  }

  // ---- Rendition ----------------------------------------------------------------------------

  predicate IsForeground(p: nat) { 30 <= p <= 37 || 90 <= p <= 97 }

  predicate IsBackground(p: nat) { 40 <= p <= 47 || 100 <= p <= 107 }

  /** The four bits of a colour code: eight plain colours and eight bright ones. */
  function Colour(p: nat): nat
    requires IsForeground(p) || IsBackground(p)
  {
    if p >= 90 then 8 + p % 10 else p % 10
  }

  function Code(v: Option<nat>): nat { if v.Some? then v.value else 0 }

  /** The parameters after the last reset, and whether there was one. */
  function AfterReset(ps: seq<nat>): (seq<nat>, bool) {
    if ps == [] then ([], false)
    else
      var (rest, reset) := AfterReset(ps[1..]);
      if reset then (rest, true)
      else if ps[0] == 0 then (ps[1..], true)
      else (ps, false)
  }

  function LastForeground(ps: seq<nat>, default: nat): nat {
    if ps == [] then default
    else if IsForeground(ps[|ps| - 1]) then Colour(ps[|ps| - 1])
    else LastForeground(ps[..|ps| - 1], default)
  }

  function LastBackground(ps: seq<nat>, default: nat): nat {
    if ps == [] then default
    else if IsBackground(ps[|ps| - 1]) then Colour(ps[|ps| - 1])
    else LastBackground(ps[..|ps| - 1], default)
  }

  function Codes(values: seq<Option<nat>>): (ps: seq<nat>)
    ensures |ps| == |values|
    ensures forall i | 0 <= i < |ps| :: ps[i] == Code(values[i])
  {
    seq(|values|, i requires 0 <= i < |values| => Code(values[i]))
  }

  /** The last foreground and the last background since the last reset. */
  function Rendition(attr: nat, ps: seq<nat>): nat {
    var (since, reset) := AfterReset(ps);
    var was := if reset then 0x07 else attr;
    LastForeground(since, was % 16) + 16 * LastBackground(since, was / 16)
  }

  // ---- Streams ------------------------------------------------------------------------------

  /** The parameter at i, or the default for a missing, empty or too small one. */
  function Param(values: seq<Option<nat>>, i: nat, default: nat): nat {
    if i < |values| && values[i].Some? && values[i].value > default then values[i].value else default
  }

  function Control(final: byte, values: seq<Option<nat>>, attr: nat): seq<Action> {
    if final == 'H' as int || final == 'f' as int then [SetCursor(Param(values, 1, 1) - 1, Param(values, 0, 1) - 1)]
    else if final == 'J' as int then if Param(values, 0, 0) == 2 then [ClearScreen] else []
    else if final == 'm' as int then [SetAttribute(Rendition(attr, Codes(values)))]
    else []
  }

  function Print(b: byte): Action { if b == '\n' as int then Glyph([0x0D, 0x0A]) else Glyph([b]) }

  function Printed(s: Bytes): (actions: seq<Action>)
    ensures |actions| == |s| && forall i | 0 <= i < |s| :: actions[i] == Print(s[i])
  {
    if s == [] then [] else [Print(s[0])] + Printed(s[1..])
  }

  /** The attribute of the device after some calls. */
  function AttrAfter(attr: nat, actions: seq<Action>): nat
    decreases |actions|
  {
    if actions == [] then attr
    else AttrAfter(if actions[0].SetAttribute? then actions[0].attr else attr, actions[1..])
  }

  lemma {:induction false} AttrAppend(attr: nat, a: seq<Action>, b: seq<Action>)
    ensures AttrAfter(attr, a + b) == AttrAfter(AttrAfter(attr, a), b)
    decreases |a|
  {
    if a == [] {
      assert a + b == b;
    } else {
      assert (a + b)[1..] == a[1..] + b;
      AttrAppend(if a[0].SetAttribute? then a[0].attr else attr, a[1..], b);
    }
  }

  function BodyLength(s: Bytes): (n: nat)
    ensures n <= |s|
    ensures forall i | 0 <= i < n :: IsBody(s[i])
    ensures n < |s| ==> !IsBody(s[n])
  {
    if s == [] || !IsBody(s[0]) then 0 else 1 + BodyLength(s[1..])
  }

  /** How many bytes the first item of a stream takes; None when it is not finished. */
  function ItemLength(s: Bytes): (n: Option<nat>)
    ensures n.Some? ==> 1 <= n.value <= |s|
  {
    if s == [] then None
    else if s[0] != ESC then Some(1)
    else if |s| == 1 then None
    else if s[1] != BRACKET then Some(2)
    else
      var n := BodyLength(s[2..]);
      if 2 + n == |s| then None else Some(3 + n)
  }

  /** The body of a control sequence at the start of the stream. */
  function Body(s: Bytes): Bytes
    requires |s| >= 2
  {
    s[2..][..BodyLength(s[2..])]
  }

  /** The calls that one finished item stands for. */
  function ItemActions(s: Bytes, attr: nat): seq<Action>
    requires ItemLength(s).Some?
  {
    if s[0] != ESC then [Print(s[0])]
    else if s[1] != BRACKET || !IsFinal(s[ItemLength(s).value - 1]) then []
    else Control(s[ItemLength(s).value - 1], Values(Fields(Body(s))), attr)
  }

  /** The calls that a whole stream stands for. */
  function Meaning(s: Bytes, attr: nat): seq<Action>
    decreases |s|
  {
    var n := ItemLength(s);
    if n == None then []
    else
      var first := ItemActions(s, attr);
      first + Meaning(s[n.value..], AttrAfter(attr, first))
  }

  /** The stream ends where an item ends. */
  predicate Complete(s: Bytes)
    decreases |s|
  {
    s == [] || (ItemLength(s).Some? && Complete(s[ItemLength(s).value..]))
  }

  ghost predicate BoundedFields(fields: seq<Bytes>) {
    |fields| < INT_LIMIT && forall i | 0 <= i < |fields| :: Decimal(fields[i]) < INT_LIMIT
  }

  /** Numbers fit a C int, and at most eight parameters select a rendition. */
  ghost predicate BoundedItem(s: Bytes) {
    |s| >= 2 && s[0] == ESC && s[1] == BRACKET ==>
      && BoundedFields(Fields(Body(s)))
      && (ItemLength(s).Some? && s[ItemLength(s).value - 1] == 'm' as int ==> |Fields(Body(s))| <= MAX_PARAMS)
  }

  ghost predicate Bounded(s: Bytes)
    decreases |s|
  {
    BoundedItem(s) && (ItemLength(s).Some? ==> Bounded(s[ItemLength(s).value..]))
  }
}
