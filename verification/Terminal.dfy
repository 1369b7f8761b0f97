/**
  A serial terminal, as far as it can be told apart by looking: reverse video (SELECT GRAPHIC
  RENDITION 7 and 27, section 8.3.117 of ECMA-48), a cursor that can be hidden, and an alternate
  screen. It knows everything the UEFI console ignores.
 */
module Terminal {

  import opened Wrappers
  import opened Words
  import opened Printer

  datatype Mode = Text | Escape | Csi(body: Bytes)

  /** A character as it appears, with the cursor shown or hidden meanwhile, or the screen wiped. */
  datatype Mark = Drawn(b: byte, reverse: bool, visible: bool) | Erased

  datatype Vt = Vt(mode: Mode, reverse: bool, visible: bool, alternate: bool) {
    /** A control sequence by its body and final byte; unknown ones do nothing. */
    function Execute(body: Bytes, final: byte): (Vt, seq<Mark>) {
      var v := this.(mode := Text);
      if final == 'm' as int && body == [0x37] then (v.(reverse := true), [])
      else if final == 'm' as int && (body == [0x32, 0x37] || body == [0x30] || body == []) then (v.(reverse := false), [])
      else if final == 'J' as int && body == [0x32] then (v, [Erased])
      else if body == [0x3F, 0x32, 0x35] && final == 'h' as int then (v.(visible := true), [])
      else if body == [0x3F, 0x32, 0x35] && final == 'l' as int then (v.(visible := false), [])
      else if body == [0x3F, 0x31, 0x30, 0x34, 0x39] && final == 'h' as int then (v.(alternate := true), [])
      else if body == [0x3F, 0x31, 0x30, 0x34, 0x39] && final == 'l' as int then (v.(alternate := false), [])
      else (v, [])
    }

    function Receive(b: byte): (Vt, seq<Mark>) {
      match mode
      case Text =>
        if b == ESC then (this.(mode := Escape), [])
        else if 0x20 <= b <= 0x7E then (this, [Drawn(b, reverse, visible)])
        else (this, [])
      case Escape => (this.(mode := if b == BRACKET then Csi([]) else Text), [])
      case Csi(body) =>
        if 0x20 <= b < 0x40 then (this.(mode := Csi(body + [b])), [])
        else if 0x40 <= b <= 0x7E then Execute(body, b)
        else (this.(mode := Text), [])
    }
  }

  /** The state before anything is sent. */
  const PLAIN: Vt := Vt(Text, false, true, false)

  function Feed(v: Vt, s: Bytes): (Vt, seq<Mark>)
    decreases |s|
  {
    if s == [] then (v, [])
    else
      var (v1, first) := v.Receive(s[0]);
      var (v2, later) := Feed(v1, s[1..]);
      (v2, first + later)
  }

  /** This stream leads from one state to the other and leaves these marks. */
  ghost predicate Leads(v: Vt, s: Bytes, w: Vt, marks: seq<Mark>) { Feed(v, s) == (w, marks) }

  lemma {:induction false} FeedAppend(v: Vt, a: Bytes, b: Bytes)
    ensures var (w, first) := Feed(v, a);
            var (end, later) := Feed(w, b);
            Feed(v, a + b) == (end, first + later)
    decreases |a|
  {
    if a == [] {
      assert a + b == b;
      assert [] + Feed(v, b).1 == Feed(v, b).1;
    } else {
      var (v1, first) := v.Receive(a[0]);
      FeedAppend(v1, a[1..], b);
      assert (a + b)[0] == a[0] && (a + b)[1..] == a[1..] + b;
      var (w, second) := Feed(v1, a[1..]);
      Associative(first, second, Feed(w, b).1);
      hide Vt.Receive;
    }
  }

  lemma LeadsOn(v: Vt, a: Bytes, w: Vt, first: seq<Mark>, b: Bytes, end: Vt, later: seq<Mark>)
    requires Leads(v, a, w, first) && Leads(w, b, end, later)
    ensures Leads(v, a + b, end, first + later)
  {
    FeedAppend(v, a, b);
    hide Feed;
  }

  lemma FeedOne(v: Vt, b: byte)
    ensures Leads(v, [b], v.Receive(b).0, v.Receive(b).1)
  {
    assert Feed(v.Receive(b).0, [b][1..]) == (v.Receive(b).0, []);
    assert v.Receive(b).1 + [] == v.Receive(b).1;
    hide Vt.Execute;
  }

  lemma {:induction false} FeedBody(v: Vt, seen: Bytes, body: Bytes)
    requires v.mode == Csi(seen) && forall b | b in body :: 0x20 <= b < 0x40
    ensures Leads(v, body, v.(mode := Csi(seen + body)), [])
    decreases |body|
  {
    if body == [] {
      assert seen + body == seen;
    } else {
      assert body[0] in body && forall b | b in body[1..] :: b in body;
      var v1 := v.(mode := Csi(seen + [body[0]]));
      assert v.Receive(body[0]) == (v1, []);
      FeedBody(v1, seen + [body[0]], body[1..]);
      assert seen + [body[0]] + body[1..] == seen + body;
      var none: seq<Mark> := [];
      assert none + none == none;
      assert Feed(v, body) == (Feed(v1, body[1..]).0, none + Feed(v1, body[1..]).1);
    }
  }

  lemma FeedSequence(v: Vt, body: Bytes, final: byte)
    requires v.mode == Text && (forall b | b in body :: 0x20 <= b < 0x40) && 0x40 <= final <= 0x7E
    ensures Leads(v, Sequence(body, final), v.Execute(body, final).0, v.Execute(body, final).1)
  {
    var esc, open := v.(mode := Escape), v.(mode := Csi([]));
    var full := v.(mode := Csi(body));
    FeedOne(v, ESC);
    FeedOne(esc, BRACKET);
    FeedBody(open, [], body);
    assert [] + body == body;
    FeedOne(full, final);
    assert full.Execute(body, final) == v.Execute(body, final);
    assert full.Receive(final) == full.Execute(body, final);
    hide Vt.Execute, Vt.Receive, Leads;
    LeadsOn(v, [ESC], esc, [], [BRACKET], open, []);
    var none: seq<Mark> := [];
    assert [ESC] + [BRACKET] == [ESC, BRACKET] && none + none == none;
    LeadsOn(v, [ESC, BRACKET], open, [], body, full, []);
    LeadsOn(v, [ESC, BRACKET] + body, full, [], [final], v.Execute(body, final).0, v.Execute(body, final).1);
    assert [] + v.Execute(body, final).1 == v.Execute(body, final).1;
  }

  /** Text as it appears. */
  function Characters(s: Bytes, reverse: bool, visible: bool): (marks: seq<Mark>)
    ensures |marks| == |s| && forall i | 0 <= i < |s| :: marks[i] == Drawn(s[i], reverse, visible)
  {
    if s == [] then [] else [Drawn(s[0], reverse, visible)] + Characters(s[1..], reverse, visible)
  }

  lemma {:induction false} FeedText(v: Vt, s: Bytes)
    requires v.mode == Text && forall b | b in s :: 0x20 <= b <= 0x7E
    ensures Leads(v, s, v, Characters(s, v.reverse, v.visible))
    decreases |s|
  {
    if s != [] {
      assert s[0] in s && forall b | b in s[1..] :: b in s;
      FeedText(v, s[1..]);
    }
  }
}
