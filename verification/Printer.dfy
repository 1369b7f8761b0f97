/**
  Streams that are printed item after item: the meaning of a concatenation, decimal numbers, and
  the control sequences that carry them.
 */
module Printer {

  import opened Wrappers
  import opened Words
  import opened Ansi

  lemma {:induction false} DecimalOfDigits(n: nat)
    ensures Decimal(Digits(n)) == n
  {
    if n < 10 {
      assert [0x30 + n][..0] == [];
    } else {
      DecimalOfDigits(n / 10);
      assert Digits(n)[..|Digits(n)| - 1] == Digits(n / 10);
    }
  }

  function Sequence(body: Bytes, final: byte): Bytes { [ESC, BRACKET] + body + [final] }

  /** A sequence that breaks off at a byte it cannot contain is dropped with that byte, and so is any other escape. */
  lemma MalformedMeaning(body: Bytes, x: byte, attr: nat)
    requires (forall b | b in body :: IsBody(b)) && !IsBody(x) && !IsFinal(x)
    ensures Meaning([ESC, BRACKET] + body + [x], attr) == [] && Complete([ESC, BRACKET] + body + [x])
  {
    var s := [ESC, BRACKET] + body + [x];
    assert s[2..] == body + [x];
    BodyLengthOf(body, [x]);
    assert s[|s|..] == [];
    hide Fields, Values, Control;
  }

  lemma EscapeMeaning(x: byte, attr: nat)
    requires x != BRACKET
    ensures Meaning([ESC, x], attr) == [] && Complete([ESC, x])
  {
    assert [ESC, x][2..] == [];
  }

  /** No other final byte means anything to the console. */
  lemma OtherFinals(final: byte, values: seq<Option<nat>>, attr: nat)
    requires final !in {0x48, 0x66, 0x4A, 0x6D}
    ensures Control(final, values, attr) == []
  {
  }

  // ---- Fields of a printed body ---------------------------------------------------------------

  predicate AllDigits(s: Bytes) { forall b | b in s :: IsDigit(b) }

  lemma {:induction false} FieldsOfDigits(s: Bytes)
    requires AllDigits(s)
    ensures WithoutSkipped(s) == s && Split(s) == [s]
  {
    if s != [] {
      FieldsOfDigits(s[1..]);
      assert IsDigit(s[0]) && [s[0]] + s[1..] == s;
    }
  }

  lemma {:induction false} SkippedAppend(a: Bytes, b: Bytes)
    ensures WithoutSkipped(a + b) == WithoutSkipped(a) + WithoutSkipped(b)
  {
    if a == [] {
      assert a + b == b;
      assert [] + WithoutSkipped(b) == WithoutSkipped(b);
    } else {
      SkippedAppend(a[1..], b);
      assert (a + b)[0] == a[0] && (a + b)[1..] == a[1..] + b;
      var kept := if IsSkipped(a[0]) then [] else [a[0]];
      assert WithoutSkipped(a + b) == kept + WithoutSkipped(a[1..] + b);
      assert kept + (WithoutSkipped(a[1..]) + WithoutSkipped(b)) == kept + WithoutSkipped(a[1..]) + WithoutSkipped(b);
      assert WithoutSkipped(a) == kept + WithoutSkipped(a[1..]);
    }
  }

  lemma {:induction false} SplitAt(a: Bytes, b: Bytes)
    requires AllDigits(a)
    ensures Split(a + [SEMICOLON] + b) == [a] + Split(b)
  {
    if a == [] {
      assert (a + [SEMICOLON] + b)[1..] == b;
    } else {
      SplitAt(a[1..], b);
      assert IsDigit(a[0]) && [a[0]] + a[1..] == a;
      assert (a + [SEMICOLON] + b)[1..] == a[1..] + [SEMICOLON] + b;
    }
  }

  lemma FieldsOfPair(a: Bytes, b: Bytes)
    requires AllDigits(a) && AllDigits(b)
    ensures Fields(a + [SEMICOLON] + b) == [a, b]
  {
    FieldsOfDigits(a);
    FieldsOfDigits(b);
    SkippedAppend(a + [SEMICOLON], b);
    SkippedAppend(a, [SEMICOLON]);
    assert WithoutSkipped([SEMICOLON]) == [SEMICOLON];
    SplitAt(a, b);
  }

  /** A body that is only a private marker and a number: the number is its one field. */
  lemma FieldsOfPrivate(s: Bytes)
    requires AllDigits(s)
    ensures Fields([0x3F] + s) == [s]
  {
    FieldsOfDigits(s);
    assert ([0x3F] + s)[1..] == s;
    assert [] + WithoutSkipped(s) == WithoutSkipped(s);
  }

  // ---- Items one after the other ------------------------------------------------------------

  lemma {:induction false} BodyLengthAppend(a: Bytes, b: Bytes)
    requires BodyLength(a) < |a|
    ensures BodyLength(a + b) == BodyLength(a)
  {
    if IsBody(a[0]) {
      BodyLengthAppend(a[1..], b);
      assert (a + b)[1..] == a[1..] + b;
    }
  }

  lemma {:induction false} BodyLengthOf(body: Bytes, rest: Bytes)
    requires forall b | b in body :: IsBody(b)
    requires rest == [] || !IsBody(rest[0])
    ensures BodyLength(body + rest) == |body|
  {
    if body == [] {
      assert body + rest == rest;
    } else {
      BodyLengthOf(body[1..], rest);
      assert (body + rest)[1..] == body[1..] + rest;
    }
  }

  /** A finished first item does not notice what follows. */
  lemma ItemIsLocal(a: Bytes, b: Bytes, attr: nat)
    requires ItemLength(a).Some?
    ensures ItemLength(a + b) == ItemLength(a)
    ensures ItemActions(a + b, attr) == ItemActions(a, attr)
    ensures BoundedItem(a + b) <==> BoundedItem(a)
  {
    if a[0] == ESC && a[1] == BRACKET {
      assert (a + b)[2..] == a[2..] + b;
      BodyLengthAppend(a[2..], b);
      assert Body(a + b) == Body(a);
    }
    hide Control, Fields, BoundedFields;
  }

  /** Streams that end between items can be read one after the other. */
  lemma {:induction false} Concatenation(a: Bytes, b: Bytes, attr: nat)
    requires Complete(a)
    ensures Meaning(a + b, attr) == Meaning(a, attr) + Meaning(b, AttrAfter(attr, Meaning(a, attr)))
    ensures Complete(a + b) <==> Complete(b)
    ensures Bounded(a) && Bounded(b) ==> Bounded(a + b)
    decreases |a|
  {
    if a == [] {
      assert a + b == b;
      assert [] + Meaning(b, attr) == Meaning(b, attr);
    } else {
      var n := ItemLength(a).value;
      ItemIsLocal(a, b, attr);
      assert (a + b)[n..] == a[n..] + b;
      Concatenation(a[n..], b, AttrAfter(attr, ItemActions(a, attr)));
      ConcatenationStep(a, b, attr);
    }
  }

  lemma ConcatenationStep(a: Bytes, b: Bytes, attr: nat)
    requires ItemLength(a).Some? && ItemLength(a + b) == ItemLength(a)
    requires ItemActions(a + b, attr) == ItemActions(a, attr) && (BoundedItem(a + b) <==> BoundedItem(a))
    requires var n, attr1 := ItemLength(a).value, AttrAfter(attr, ItemActions(a, attr));
             && (a + b)[n..] == a[n..] + b
             && Meaning(a[n..] + b, attr1) == Meaning(a[n..], attr1) + Meaning(b, AttrAfter(attr1, Meaning(a[n..], attr1)))
             && (Complete(a[n..] + b) <==> Complete(b))
             && (Bounded(a[n..]) && Bounded(b) ==> Bounded(a[n..] + b))
    ensures Meaning(a + b, attr) == Meaning(a, attr) + Meaning(b, AttrAfter(attr, Meaning(a, attr)))
    ensures Complete(a + b) <==> Complete(b)
    ensures Bounded(a) && Bounded(b) ==> Bounded(a + b)
  {
    hide *;
    var n, first := ItemLength(a).value, ItemActions(a, attr);
    var attr1 := AttrAfter(attr, first);
    MeaningStep(a, attr);
    MeaningStep(a + b, attr);
    var rest := Meaning(a[n..], attr1);
    AttrAppend(attr, first, rest);
    var end := Meaning(b, AttrAfter(attr1, rest));
    assert first + (rest + end) == first + rest + end;
  }

  lemma MeaningStep(s: Bytes, attr: nat)
    requires ItemLength(s).Some?
    ensures var first := ItemActions(s, attr);
            Meaning(s, attr) == first + Meaning(s[ItemLength(s).value..], AttrAfter(attr, first))
    ensures Complete(s) <==> Complete(s[ItemLength(s).value..])
    ensures Bounded(s) <==> BoundedItem(s) && Bounded(s[ItemLength(s).value..])
  {
  }

  /** A single control sequence. */
  lemma SequenceMeaning(body: Bytes, final: byte, attr: nat)
    requires (forall b | b in body :: IsBody(b)) && IsFinal(final)
    requires BoundedFields(Fields(body)) && |Fields(body)| <= MAX_PARAMS
    ensures var s := Sequence(body, final);
            && Complete(s) && Bounded(s)
            && Meaning(s, attr) == Control(final, Values(Fields(body)), attr)
  {
    var s := Sequence(body, final);
    assert s[2..] == body + [final];
    BodyLengthOf(body, [final]);
    assert ItemLength(s) == Some(|s|) && Body(s) == body && s[|s| - 1] == final;
    hide Control, Fields, BoundedFields;
    assert s[|s|..] == [];
    assert Complete([]) && Bounded([]) && Meaning([], 0) == [];
    assert ItemActions(s, attr) == Control(final, Values(Fields(body)), attr);
    assert ItemActions(s, attr) + [] == ItemActions(s, attr);
  }

  /** Text without ESC prints itself. */
  lemma {:induction false} TextMeaning(s: Bytes, attr: nat)
    requires ESC !in s
    ensures Complete(s) && Bounded(s)
    ensures Meaning(s, attr) == Printed(s)
    decreases |s|
  {
    if s != [] {
      TextMeaning(s[1..], attr);
      var first := [Print(s[0])];
      assert ItemActions(s, attr) == first && first[1..] == [];
      assert AttrAfter(attr, first) == AttrAfter(attr, []) == attr;
    }
  }
}
