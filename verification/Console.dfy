/**
  The console driver: a byte-by-byte state machine over a fixed array of parameters.
 */
module Console {

  import opened Wrappers
  import opened Words
  import opened Ansi

  type int32 = n: int | -0x8000_0000 <= n < 0x8000_0000

  datatype Mode = Normal | Escape | Csi

  /** The driver as a value, with the attribute of its device. */
  datatype State = State(mode: Mode, params: seq<int>, n: nat, cur: int, seen: bool, attr: nat) {
    predicate Valid() {
      |params| == MAX_PARAMS && cur >= 0 && attr < 256
    }

    function Reset(): State { this.(mode := Normal, params := seq(MAX_PARAMS, _ => 0), n := 0, cur := 0, seen := false) }

    function PushParam(): State {
      this.(params := if n < |params| then params[n := if seen then cur else -1] else params,
            n := n + 1, cur := 0, seen := false)
    }

    /** The effect of a control sequence, after its last parameter was pushed. */
    function Exec(final: byte): (r: (State, seq<Action>))
      requires Valid() && (final == 'm' as int ==> n <= MAX_PARAMS)
      ensures r.0.Valid() && r.0.attr == AttrAfter(attr, r.1)
    {
      if final == 'H' as int || final == 'f' as int then
        var row := if n >= 1 && params[0] > 0 then params[0] else 1;
        var col := if n >= 2 && params[1] > 0 then params[1] else 1;
        (this, [SetCursor(col - 1, row - 1)])
      else if final == 'J' as int then
        (this, if (if n >= 1 && params[0] >= 0 then params[0] else 0) == 2 then [ClearScreen] else [])
      else if final == 'm' as int then
        var a := Select(attr, params[..n]);
        SelectInRange(attr, params[..n]);
        (this.(attr := a), [SetAttribute(a)])
      else (this, [])
    }

    /** The bounds under which the C code is defined. */
    predicate Accepts(b: byte) {
      mode == Csi ==>
        && (IsDigit(b) ==> cur * 10 + (b - 0x30) < INT_LIMIT)
        && (b == 'm' as int ==> n < MAX_PARAMS)
        && n + 1 < INT_LIMIT
    }

    function Step(b: byte): (r: (State, seq<Action>))
      requires Valid() && Accepts(b)
      ensures r.0.Valid() && r.0.attr == AttrAfter(attr, r.1)
    {
      match mode
      case Normal =>
        if b == ESC then (this.(mode := Escape), []) else (this, [Print(b)])
      case Escape =>
        if b == BRACKET then (Reset().(mode := Csi), []) else (this.(mode := Normal), [])
      case Csi =>
        if IsDigit(b) then (this.(cur := cur * 10 + (b - 0x30), seen := true), [])
        else if b == SEMICOLON then (PushParam(), [])
        else if IsSkipped(b) then (this, [])
        else if IsFinal(b) then
          var (s, actions) := PushParam().Exec(b);
          (s.(mode := Normal), actions)
        else (this.(mode := Normal), [])
    }
  }

  /** One parameter of a rendition: attr & 0xF0 keeps the background, attr & 0x0F the foreground. */
  function SelectOne(attr: nat, param: int): nat {
    var p := if param < 0 then 0 else param;
    if p == 0 then 0x07
    else if 30 <= p <= 37 then attr / 16 % 16 * 16 + (p - 30)
    else if 90 <= p <= 97 then attr / 16 % 16 * 16 + (p - 90 + 8)
    else if 40 <= p <= 47 then attr % 16 + (p - 40) * 16
    else if 100 <= p <= 107 then attr % 16 + (p - 100 + 8) * 16
    else attr
  }

  function Select(attr: nat, params: seq<int>): nat {
    if params == [] then attr
    else SelectOne(Select(attr, params[..|params| - 1]), params[|params| - 1])
  }

  lemma {:induction false} SelectInRange(attr: nat, params: seq<int>)
    requires attr < 256
    ensures Select(attr, params) < 256
  {
    if params != [] {
      SelectInRange(attr, params[..|params| - 1]);
    }
  }

  // ---- Rendition: the loop computes the declarative meaning -----------------------------------

  /** The C encoding of parameters: -1 for an empty one. */
  function Encoded(v: Option<nat>): int { if v.Some? then v.value else -1 }

  lemma {:induction false} AfterResetSnoc(ps: seq<nat>, p: nat)
    ensures var (since, reset) := AfterReset(ps);
            AfterReset(ps + [p]) == if p == 0 then ([], true) else (since + [p], reset)
  {
    if ps == [] {
      assert AfterReset([p][1..]) == ([], false);
    } else {
      AfterResetSnoc(ps[1..], p);
      assert (ps + [p])[1..] == ps[1..] + [p];
    }
  }

  lemma LastSnoc(ps: seq<nat>, p: nat, default: nat)
    ensures LastForeground(ps + [p], default) == if IsForeground(p) then Colour(p) else LastForeground(ps, default)
    ensures LastBackground(ps + [p], default) == if IsBackground(p) then Colour(p) else LastBackground(ps, default)
  {
    assert (ps + [p])[..|ps|] == ps;
  }

  lemma {:induction false} LastInRange(ps: seq<nat>, default: nat)
    requires default < 16
    ensures LastForeground(ps, default) < 16 && LastBackground(ps, default) < 16
  {
    if ps != [] {
      LastInRange(ps[..|ps| - 1], default);
    }
  }

  lemma SelectNibbles(fg: nat, bg: nat, p: nat, param: int)
    requires fg < 16 && bg < 16 && p == if param < 0 then 0 else param
    ensures SelectOne(fg + 16 * bg, param) ==
            if p == 0 then 0x07
            else (if IsForeground(p) then Colour(p) else fg) + 16 * (if IsBackground(p) then Colour(p) else bg)
  {
    var attr := fg + 16 * bg;
    assert attr % 16 == fg && attr / 16 % 16 == bg;
    if 30 <= p <= 37 || 90 <= p <= 97 {
      assert Colour(p) == if p <= 37 then p - 30 else p - 90 + 8;
    } else if 40 <= p <= 47 || 100 <= p <= 107 {
      assert Colour(p) == if p <= 47 then p - 40 else p - 100 + 8;
    }
    hide Colour;
  }

  lemma RenditionSnoc(attr: nat, ps: seq<nat>, p: nat, param: int)
    requires attr < 256 && p == if param < 0 then 0 else param
    ensures Rendition(attr, ps + [p]) == SelectOne(Rendition(attr, ps), param)
  {
    AfterResetSnoc(ps, p);
    var (since, reset) := AfterReset(ps);
    var was := if reset then 0x07 else attr;
    LastSnoc(since, p, was % 16);
    LastSnoc(since, p, was / 16);
    LastInRange(since, was % 16);
    LastInRange(since, was / 16);
    hide AfterReset, LastForeground, LastBackground;
    SelectNibbles(LastForeground(since, was % 16), LastBackground(since, was / 16), p, param);
    hide SelectOne, IsForeground, IsBackground, Colour;
    if p == 0 {
      NothingSince(was);
    }
  }

  lemma NothingSince(was: nat)
    ensures LastForeground([], was) == was && LastBackground([], was) == was
  {
  }

  /** The rendition loop leaves the last foreground and the last background since the last reset. */
  lemma {:induction false} SelectIsRendition(attr: nat, params: seq<int>, values: seq<Option<nat>>)
    requires attr < 256
    requires |params| == |values| && forall i | 0 <= i < |params| :: params[i] == Encoded(values[i])
    ensures Select(attr, params) == Rendition(attr, Codes(values))
  {
    if params != [] {
      var last := |params| - 1;
      SelectIsRendition(attr, params[..last], values[..last]);
      RenditionSnoc(attr, Codes(values[..last]), Code(values[last]), params[last]);
      assert Codes(values) == Codes(values[..last]) + [Code(values[last])];
      hide Rendition, SelectOne;
    }
  }

  /** Nothing selected leaves the attribute as it is, and an attribute stays within its eight bits. */
  lemma {:induction false} RenditionInRange(attr: nat, ps: seq<nat>)
    requires attr < 256
    ensures Rendition(attr, []) == attr && Rendition(attr, ps) < 256
  {
    assert AfterReset([]) == ([], false);
    NothingSince(attr % 16);
    NothingSince(attr / 16);
    var (since, reset) := AfterReset(ps);
    var was := if reset then 0x07 else attr;
    LastInRange(since, was % 16);
    LastInRange(since, was / 16);
    hide AfterReset, LastForeground, LastBackground;
  }

  /** Parameters take effect one after the other. */
  lemma RenditionsInOrder(attr: nat, ps: seq<nat>, p: nat)
    requires attr < 256
    ensures Rendition(attr, ps + [p]) == Rendition(Rendition(attr, ps), [p])
  {
    RenditionInRange(attr, ps);
    RenditionSnoc(attr, ps, p, p);
    var mid := Rendition(attr, ps);
    RenditionInRange(mid, []);
    RenditionSnoc(mid, [], p, p);
    assert [] + [p] == [p];
    hide Rendition, SelectOne;
  }

  // ---- Runs -------------------------------------------------------------------------------------

  predicate Acceptable(c: State, s: Bytes)
    requires c.Valid()
    decreases |s|
  {
    s == [] || (c.Accepts(s[0]) && Acceptable(c.Step(s[0]).0, s[1..]))
  }

  function Run(c: State, s: Bytes): (r: (State, seq<Action>))
    requires c.Valid() && Acceptable(c, s)
    ensures r.0.Valid()
    decreases |s|
  {
    if s == [] then (c, [])
    else
      var (c1, first) := c.Step(s[0]);
      var (c2, rest) := Run(c1, s[1..]);
      (c2, first + rest)
  }

  lemma RunUnfolds(c: State, s: Bytes)
    requires c.Valid() && s != []
    ensures Acceptable(c, s) <==> c.Accepts(s[0]) && Acceptable(c.Step(s[0]).0, s[1..])
    ensures Acceptable(c, s) ==>
              Run(c, s) == (Run(c.Step(s[0]).0, s[1..]).0, c.Step(s[0]).1 + Run(c.Step(s[0]).0, s[1..]).1)
  {
  }

  lemma RunNothing(c: State)
    requires c.Valid()
    ensures Acceptable(c, []) && Run(c, []) == (c, [])
  {
  }

  lemma {:induction false} RunAppend(c: State, a: Bytes, b: Bytes)
    requires c.Valid() && Acceptable(c, a) && Acceptable(Run(c, a).0, b)
    ensures Acceptable(c, a + b)
    ensures Run(c, a + b) == (Run(Run(c, a).0, b).0, Run(c, a).1 + Run(Run(c, a).0, b).1)
    decreases |a|, 1
  {
    if a == [] {
      assert a + b == b;
      assert [] + Run(c, b).1 == Run(c, b).1;
    } else {
      RunAppendStep(c, a, b);
    }
  }

  lemma {:induction false} RunAppendStep(c: State, a: Bytes, b: Bytes)
    requires c.Valid() && a != [] && Acceptable(c, a) && Acceptable(Run(c, a).0, b)
    ensures Acceptable(c, a + b)
    ensures Run(c, a + b) == (Run(Run(c, a).0, b).0, Run(c, a).1 + Run(Run(c, a).0, b).1)
    decreases |a|, 0
  {
    hide *;
    RunUnfolds(c, a);
    var (c1, first) := c.Step(a[0]);
    RunAppend(c1, a[1..], b);
    assert (a + b)[0] == a[0] && (a + b)[1..] == a[1..] + b;
    RunUnfolds(c, a + b);
    var rest, last := Run(c1, a[1..]).1, Run(Run(c, a).0, b).1;
    assert first + (rest + last) == first + rest + last;
  }

  // ---- Inside a control sequence ----------------------------------------------------------------

  lemma {:induction false} WithoutSkippedSnoc(s: Bytes, b: byte)
    ensures WithoutSkipped(s + [b]) == WithoutSkipped(s) + if IsSkipped(b) then [] else [b]
  {
    if s == [] {
      assert WithoutSkipped([b][1..]) == [];
    } else {
      WithoutSkippedSnoc(s[1..], b);
      assert (s + [b])[1..] == s[1..] + [b];
    }
  }

  /** The fields after one more byte: a semicolon opens an empty one, any other byte extends the last. */
  function Extended(fields: seq<Bytes>, b: byte): seq<Bytes>
    requires |fields| > 0
  {
    if b == SEMICOLON then fields + [[]]
    else fields[..|fields| - 1] + [fields[|fields| - 1] + [b]]
  }

  lemma SplitSingle(b: byte)
    ensures Split([b]) == Extended([[]], b)
  {
    assert Split([b][1..]) == [[]];
    var empty: seq<Bytes> := [[]];
    assert [b] + [] == [b] && empty[0] + [b] == [b];
    if b == SEMICOLON {
      assert Split([b]) == empty + empty;
    } else {
      assert Split([b]) == [[b] + []] + [] == [[b]];
      assert Extended(empty, b) == empty[..0] + [empty[0] + [b]] == [[b]];
    }
  }

  lemma {:induction false} SplitSnoc(s: Bytes, b: byte)
    ensures Split(s + [b]) == Extended(Split(s), b)
  {
    if s == [] {
      SplitSingle(b);
      assert s + [b] == [b];
    } else {
      SplitSnoc(s[1..], b);
      assert (s + [b])[1..] == s[1..] + [b];
      var rest := Split(s[1..]);
      ExtendedAfter([[]], rest, b);
      ExtendedHead(s[0], rest, b);
      assert Split(s + [b]) == Extended(Split(s), b) by {
        hide Extended;
      }
    }
  }

  lemma ExtendedHead(x: byte, rest: seq<Bytes>, b: byte)
    requires |rest| > 0
    ensures Extended([[x] + rest[0]] + rest[1..], b) == [[x] + Extended(rest, b)[0]] + Extended(rest, b)[1..]
  {
    if |rest| == 1 {
      assert [x] + (rest[0] + [b]) == [x] + rest[0] + [b];
    } else {
      ExtendedAfter([[x] + rest[0]], rest[1..], b);
      ExtendedAfter([rest[0]], rest[1..], b);
      assert [rest[0]] + rest[1..] == rest;
    }
  }

  lemma ExtendedAfter(front: seq<Bytes>, rest: seq<Bytes>, b: byte)
    requires |rest| > 0
    ensures Extended(front + rest, b) == front + Extended(rest, b)
  {
    assert (front + rest)[..|front| + |rest| - 1] == front + rest[..|rest| - 1];
  }

  lemma FieldsSnoc(body: Bytes, b: byte)
    ensures Fields(body + [b]) == if IsSkipped(b) then Fields(body) else Extended(Fields(body), b)
  {
    WithoutSkippedSnoc(body, b);
    if IsSkipped(b) {
      assert WithoutSkipped(body) + [] == WithoutSkipped(body);
    } else {
      SplitSnoc(WithoutSkipped(body), b);
    }
  }

  /** The driver has read this much of a control sequence. */
  ghost predicate HasRead(c: State, body: Bytes) {
    var fields := Fields(body);
    var last := fields[|fields| - 1];
    && c.Valid() && c.mode == Csi
    && c.n == |fields| - 1
    && c.cur == Decimal(last) && (c.seen <==> last != [])
    && forall i | 0 <= i < MAX_PARAMS :: c.params[i] == if i < c.n then Encoded(Value(fields[i])) else 0
  }

  lemma DecimalSnoc(digits: Bytes, b: byte)
    requires IsDigit(b)
    ensures Decimal(digits + [b]) == Decimal(digits) * 10 + (b - 0x30)
  {
    assert (digits + [b])[..|digits|] == digits;
  }

  lemma StepReads(c: State, body: Bytes, b: byte)
    requires HasRead(c, body) && IsBody(b) && c.Accepts(b)
    ensures c.Step(b).1 == [] && HasRead(c.Step(b).0, body + [b]) && c.Step(b).0.attr == c.attr
  {
    FieldsSnoc(body, b);
    var fields := Fields(body);
    if IsDigit(b) {
      DecimalSnoc(fields[|fields| - 1], b);
    }
    hide Fields, Decimal;
  }

  /** What the parameters hold once the last one is pushed. */
  ghost predicate HoldsValues(c: State, values: seq<Option<nat>>) {
    && c.Valid() && c.n == |values|
    && forall i | 0 <= i < MAX_PARAMS && i < |values| :: c.params[i] == Encoded(values[i])
  }

  lemma PushCompletes(c: State, body: Bytes)
    requires HasRead(c, body)
    ensures HoldsValues(c.PushParam(), Values(Fields(body))) && c.PushParam().attr == c.attr
  {
    hide Fields, Decimal;
  }

  lemma ExecControls(c: State, values: seq<Option<nat>>, b: byte)
    requires HoldsValues(c, values) && |values| > 0 && (b == 'm' as int ==> c.n <= MAX_PARAMS)
    ensures c.Exec(b).1 == Control(b, values, c.attr)
  {
    if b == 'm' as int {
      SelectIsRendition(c.attr, c.params[..c.n], values);
    }
    hide Select, Rendition, Codes, Values;
  }

  /** The end of a sequence: its calls, and nothing carried over but the attribute. */
  lemma StepFinishes(c: State, body: Bytes, b: byte)
    requires HasRead(c, body) && !IsBody(b) && c.Accepts(b)
    ensures var (c', actions) := c.Step(b);
            && c'.mode == Normal
            && actions == if IsFinal(b) then Control(b, Values(Fields(body)), c.attr) else []
  {
    PushCompletes(c, body);
    if IsFinal(b) {
      ExecControls(c.PushParam(), Values(Fields(body)), b);
    }
    hide Fields, Values, Control, HoldsValues, State.Exec, State.PushParam;
  }

  lemma FieldBoundSnoc(body: Bytes, b: byte)
    requires IsBody(b)
    requires BoundedFields(Fields(body + [b]))
    ensures BoundedFields(Fields(body))
  {
    FieldsSnoc(body, b);
    var fields := Fields(body);
    hide Fields, Decimal;
    if !IsSkipped(b) {
      var extended := Extended(fields, b);
      forall i | 0 <= i < |fields|
        ensures Decimal(fields[i]) < INT_LIMIT
      {
        assert Decimal(extended[i]) < INT_LIMIT;
        if IsDigit(b) && i == |fields| - 1 {
          DecimalSnoc(fields[i], b);
        }
      }
    }
  }

  /** A whole body is read without a call, whatever was read before. */
  lemma {:induction false} RunReads(c: State, read: Bytes, rest: Bytes)
    requires HasRead(c, read)
    requires forall i | 0 <= i < |rest| :: IsBody(rest[i])
    requires BoundedFields(Fields(read + rest))
    ensures Acceptable(c, rest) && Run(c, rest).1 == []
    ensures HasRead(Run(c, rest).0, read + rest) && Run(c, rest).0.attr == c.attr
    decreases |rest|
  {
    if rest == [] {
      assert read + rest == read;
    } else {
      var b := rest[0];
      assert read + rest == (read + [b]) + rest[1..];
      PrefixBounded(read + [b], rest[1..]);
      AcceptsBody(c, read, b);
      StepReads(c, read, b);
      RunReads(c.Step(b).0, read + [b], rest[1..]);
      hide HasRead;
    }
  }

  lemma {:induction false} PrefixBounded(a: Bytes, b: Bytes)
    requires forall i | 0 <= i < |b| :: IsBody(b[i])
    requires BoundedFields(Fields(a + b))
    ensures BoundedFields(Fields(a))
    decreases |b|
  {
    if b == [] {
      assert a + b == a;
    } else {
      var n := |b| - 1;
      assert a + b == (a + b[..n]) + [b[n]];
      FieldBoundSnoc(a + b[..n], b[n]);
      PrefixBounded(a, b[..n]);
    }
  }

  lemma AcceptsBody(c: State, read: Bytes, b: byte)
    requires HasRead(c, read) && IsBody(b)
    requires BoundedFields(Fields(read + [b]))
    ensures c.Accepts(b)
  {
    FieldsSnoc(read, b);
    if IsDigit(b) {
      var fields := Fields(read);
      DecimalSnoc(fields[|fields| - 1], b);
      assert Extended(fields, b)[|fields| - 1] == fields[|fields| - 1] + [b];
    }
  }

  // ---- The driver computes the meaning of every stream ------------------------------------------

  lemma MeaningUnfolds(s: Bytes, attr: nat)
    requires ItemLength(s).Some?
    ensures var first := ItemActions(s, attr);
            Meaning(s, attr) == first + Meaning(s[ItemLength(s).value..], AttrAfter(attr, first))
  {
  }

  /** From the idle state these bytes make these calls and lead back to the idle state. */
  ghost predicate RunsTo(c: State, item: Bytes, actions: seq<Action>)
    requires c.Valid()
  {
    && Acceptable(c, item)
    && Run(c, item).0.mode == Normal && Run(c, item).1 == actions
    && Run(c, item).0.attr == AttrAfter(c.attr, actions)
  }

  /** One finished item. */
  lemma ItemRuns(c: State, s: Bytes)
    requires c.Valid() && c.mode == Normal && BoundedItem(s) && ItemLength(s).Some?
    ensures RunsTo(c, s[..ItemLength(s).value], ItemActions(s, c.attr))
  {
    var item := s[..ItemLength(s).value];
    if s[0] != ESC {
      assert item == [s[0]];
      TextRuns(c, s[0]);
    } else if s[1] != BRACKET {
      assert item == [ESC, s[1]];
      EscapeRuns(c, s[1]);
    } else {
      var body, last := Body(s), s[ItemLength(s).value - 1];
      assert item == [ESC, BRACKET] + body + [last];
      RunSequence(c, body, last);
    }
    hide RunsTo, Control, Fields, Values, BodyLength;
  }

  lemma TextRuns(c: State, b: byte)
    requires c.Valid() && c.mode == Normal && b != ESC
    ensures RunsTo(c, [b], [Print(b)])
  {
    RunOne(c, b);
    assert [Print(b)][1..] == [];
    hide Run, Acceptable;
  }

  lemma EscapeRuns(c: State, b: byte)
    requires c.Valid() && c.mode == Normal && b != BRACKET
    ensures RunsTo(c, [ESC, b], [])
  {
    RunTwo(c, ESC, b);
    hide Run, Acceptable;
  }

  lemma RunOne(c: State, b: byte)
    requires c.Valid() && c.Accepts(b)
    ensures Acceptable(c, [b]) && Run(c, [b]) == c.Step(b)
  {
    var c1 := c.Step(b).0;
    assert Acceptable(c1, [b][1..]) && Run(c1, [b][1..]) == (c1, []);
    assert c.Step(b).1 + [] == c.Step(b).1;
  }

  lemma RunTwo(c: State, a: byte, b: byte)
    requires c.Valid() && c.Accepts(a) && c.Step(a).0.Accepts(b)
    ensures Acceptable(c, [a, b])
    ensures Run(c, [a, b]) == (c.Step(a).0.Step(b).0, c.Step(a).1 + c.Step(a).0.Step(b).1)
  {
    RunOne(c, a);
    RunOne(c.Step(a).0, b);
    RunAppend(c, [a], [b]);
    assert [a] + [b] == [a, b];
  }

  /** After ESC [ the driver has read an empty body, whatever the sequence before left behind. */
  lemma SequenceStarts(c: State)
    requires c.Valid() && c.mode == Normal
    ensures Acceptable(c, [ESC, BRACKET]) && Run(c, [ESC, BRACKET]).1 == []
    ensures HasRead(Run(c, [ESC, BRACKET]).0, []) && Run(c, [ESC, BRACKET]).0.attr == c.attr
  {
    RunTwo(c, ESC, BRACKET);
  }

  lemma RunSequence(c: State, body: Bytes, b: byte)
    requires c.Valid() && c.mode == Normal && !IsBody(b)
    requires forall i | 0 <= i < |body| :: IsBody(body[i])
    requires BoundedFields(Fields(body))
    requires b == 'm' as int ==> |Fields(body)| <= MAX_PARAMS
    ensures RunsTo(c, [ESC, BRACKET] + body + [b], if IsFinal(b) then Control(b, Values(Fields(body)), c.attr) else [])
  {
    SequenceStarts(c);
    var c1 := Run(c, [ESC, BRACKET]).0;
    assert [] + body == body;
    RunReads(c1, [], body);
    RunAppend(c, [ESC, BRACKET], body);
    var c2 := Run(c1, body).0;
    assert c2.Accepts(b);
    StepFinishes(c2, body, b);
    RunOne(c2, b);
    hide HasRead, Fields, Control;
    RunAppend(c, [ESC, BRACKET] + body, [b]);
  }

  /** A stream that stops inside an item: no call, and the driver is left waiting. */
  lemma RunUnfinished(c: State, s: Bytes)
    requires c.Valid() && c.mode == Normal && BoundedItem(s) && ItemLength(s) == None
    ensures Acceptable(c, s) && Run(c, s).1 == [] && Run(c, s).0.attr == c.attr
    ensures Run(c, s).0.mode == Normal <==> s == []
  {
    if s == [] {
    } else if |s| == 1 {
      RunOne(c, s[0]);
      assert s == [s[0]];
    } else {
      SequenceStarts(c);
      var c1 := Run(c, [ESC, BRACKET]).0;
      assert [] + s[2..] == s[2..] == Body(s);
      RunReads(c1, [], s[2..]);
      RunAppend(c, [ESC, BRACKET], s[2..]);
      assert [ESC, BRACKET] + s[2..] == s;
    }
  }

  /**
    On every stream within the bounds the driver makes exactly the calls that the grammar gives it,
    and it is idle again exactly when the stream ends where an item ends.
   */
  lemma {:induction false} RunMeaning(c: State, s: Bytes)
    requires c.Valid() && c.mode == Normal && Bounded(s)
    ensures Acceptable(c, s)
    ensures Run(c, s).1 == Meaning(s, c.attr)
    ensures Run(c, s).0.mode == Normal <==> Complete(s)
    ensures Run(c, s).0.attr == AttrAfter(c.attr, Meaning(s, c.attr))
    decreases |s|
  {
    if ItemLength(s) == None {
      RunUnfinished(c, s);
    } else {
      var n := ItemLength(s).value;
      ItemRuns(c, s);
      var c1 := Run(c, s[..n]).0;
      RunMeaning(c1, s[n..]);
      RunAppend(c, s[..n], s[n..]);
      assert s[..n] + s[n..] == s;
      MeaningUnfolds(s, c.attr);
      AttrAppend(c.attr, ItemActions(s, c.attr), Meaning(s[n..], c1.attr));
      hide Meaning, ItemActions, BoundedItem;
    }
  }

  // ---- The driver itself --------------------------------------------------------------------------

  class Driver {
    var ansiState: Mode
    const csiParams: array<int32>
    var csiN: int32
    var csiCur: int32
    var csiSeenDigit: bool

    /** The device: its current attribute and the calls it has received. */
    var attr: nat
    var calls: seq<Action>

    ghost function Contents(): State
      reads this, csiParams
      requires csiN >= 0
    {
      State(ansiState, csiParams[..], csiN, csiCur, csiSeenDigit, attr)
    }

    ghost predicate Valid()
      reads this, csiParams
    {
      csiN >= 0 && Contents().Valid()
    }

    constructor (attr: nat)
      requires attr < 256
      ensures Valid() && ansiState == Normal && this.attr == attr && calls == [] && fresh(csiParams)
    {
      ansiState, csiN, csiCur, csiSeenDigit := Normal, 0, 0, false;
      csiParams := new int32[MAX_PARAMS](_ => 0);
      this.attr := attr;
      calls := [];
    }

    method AnsiReset()
      requires Valid()
      modifies this`ansiState, this`csiN, this`csiCur, this`csiSeenDigit, csiParams
      ensures Valid() && Contents() == old(Contents()).Reset()
    {
      ansiState := Normal;
      csiN := 0;
      csiCur := 0;
      csiSeenDigit := false;
      for i := 0 to MAX_PARAMS
        invariant forall k | 0 <= k < i :: csiParams[k] == 0
        modifies csiParams
      {
        csiParams[i] := 0;
      }
    }

    method PushParam()
      requires Valid() && csiN + 1 < INT_LIMIT
      modifies this`csiN, this`csiCur, this`csiSeenDigit, csiParams
      ensures Valid() && Contents() == old(Contents()).PushParam()
    {
      if csiN < MAX_PARAMS {
        csiParams[csiN] := if csiSeenDigit then csiCur else -1;
      }
      csiN := csiN + 1;
      csiCur := 0;
      csiSeenDigit := false;
    }

    method Exec(final: byte)
      requires Valid() && csiN + 1 < INT_LIMIT && (final == 'm' as int ==> csiN < MAX_PARAMS)
      modifies this, csiParams
      ensures Valid()
      ensures var (after, actions) := old(Contents()).PushParam().Exec(final);
              Contents() == after && calls == old(calls) + actions
    {
      PushParam();
      if final == 'H' as int || final == 'f' as int {
        var row: int := if csiN >= 1 && csiParams[0] > 0 then csiParams[0] else 1;
        var col: int := if csiN >= 2 && csiParams[1] > 0 then csiParams[1] else 1;
        calls := calls + [SetCursor(col - 1, row - 1)];
      } else if final == 'J' as int {
        var n := if csiN >= 1 && csiParams[0] >= 0 then csiParams[0] else 0;
        if n == 2 {
          calls := calls + [ClearScreen];
        }
      } else if final == 'm' as int {
        var a := attr;
        for i := 0 to csiN
          invariant a == Select(attr, csiParams[..][..i])
        {
          assert csiParams[..][..i + 1][..i] == csiParams[..][..i];
          a := SelectOne(a, csiParams[i]);
        }
        SelectInRange(attr, csiParams[..][..csiN]);
        attr := a;
        calls := calls + [SetAttribute(a)];
      }
    }

    method RawPutc(c: byte)
      modifies this`calls
      ensures calls == old(calls) + [Print(c)]
    {
      if c == '\n' as int {
        calls := calls + [Glyph([0x0D, 0x0A])];
      } else {
        calls := calls + [Glyph([c])];
      }
    }

    method ParseByte(c: byte)
      requires Valid() && Contents().Accepts(c)
      modifies this, csiParams
      ensures Valid()
      ensures var (after, actions) := old(Contents()).Step(c);
              Contents() == after && calls == old(calls) + actions
    {
      match ansiState
      case Normal =>
        if c == 0x1B {
          ansiState := Escape;
        } else {
          RawPutc(c);
        }
      case Escape =>
        if c == '[' as int {
          AnsiReset();
          ansiState := Csi;
        } else {
          ansiState := Normal;
        }
      case Csi =>
        if '0' as int <= c <= '9' as int {
          csiCur := csiCur * 10 + (c - '0' as int);
          csiSeenDigit := true;
        } else if c == ';' as int {
          PushParam();
        } else if c == '?' as int || c == '>' as int || c == '=' as int || c == ' ' as int {
        } else if 0x40 <= c <= 0x7E {
          Exec(c);
          ansiState := Normal;
        } else {
          ansiState := Normal;
        }
    }

    method Write(buf: Bytes)
      requires Valid() && Acceptable(Contents(), buf)
      modifies this, csiParams
      ensures Valid()
      ensures Contents() == Run(old(Contents()), buf).0 && calls == old(calls) + Run(old(Contents()), buf).1
    {
      ghost var start := Contents();
      hide State.Step, State.Accepts, Run, Acceptable;
      assert buf[0..] == buf;
      for i := 0 to |buf|
        invariant Valid() && Acceptable(Contents(), buf[i..])
        invariant Run(start, buf).0 == Run(Contents(), buf[i..]).0
        invariant old(calls) + Run(start, buf).1 == calls + Run(Contents(), buf[i..]).1
      {
        TakeNext(buf, i);
        RunUnfolds(Contents(), buf[i..]);
        ghost var made, first := calls, Contents().Step(buf[i]).1;
        ParseByte(buf[i]);
        Associative(made, first, Run(Contents(), buf[i + 1..]).1);
      }
      assert buf[|buf|..] == [];
      RunNothing(Contents());
      assert calls + [] == calls;
    }

    /** From the idle state a bounded stream is carried out as the grammar reads it. */
    method WriteStream(buf: Bytes)
      requires Valid() && ansiState == Normal && Bounded(buf)
      modifies this, csiParams
      ensures Valid()
      ensures calls == old(calls) + Meaning(buf, old(attr))
      ensures attr == AttrAfter(old(attr), Meaning(buf, old(attr)))
      ensures ansiState == Normal <==> Complete(buf)
    {
      RunMeaning(Contents(), buf);
      Write(buf);
    }
  }
}
