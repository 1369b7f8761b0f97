/**
  The console's keyboard side: one key of look-ahead over a device that answers every poll with a
  key or with "not ready" (ReadKeyStroke, section 12.3 of the UEFI Specification 2.10).
 */
module KeyInput {

  import opened Wrappers
  import opened Words

  /** The device's answer to one poll: a UTF-16 code unit, or nothing yet. */
  datatype Answer = Success(unit: nat) | NotReady

  /** What a key becomes: carriage return is a line feed, anything else its low byte. */
  function Translate(unit: nat): byte {
    if unit == 0x0D then 0x0A else unit % 256
  }

  lemma LowByte(unit: nat)
    ensures Translate(unit) == if unit == 0x0D then 0x0A else if unit != 0 then unit % 256 else 0
  {
  }

  /** The look-ahead slot and the answers the device will still give. */
  datatype Queue = Queue(pending: Option<nat>, answers: seq<Answer>)

  function KeysIn(answers: seq<Answer>): Bytes {
    if answers == [] then []
    else (if answers[0].Success? then [Translate(answers[0].unit)] else []) + KeysIn(answers[1..])
  }

  /** All keystrokes not yet delivered, in order of arrival. */
  function Waiting(q: Queue): Bytes {
    (if q.pending.Some? then [Translate(q.pending.value)] else []) + KeysIn(q.answers)
  }

  // ---- The three calls, as functions ------------------------------------------------------------

  /** A device that has nothing more to say is not ready. */
  function DataReady(q: Queue): (bool, Queue) {
    if q.pending.Some? then (true, q)
    else if q.answers == [] then (false, q)
    else if q.answers[0].Success? then (true, Queue(Some(q.answers[0].unit), q.answers[1..]))
    else (false, Queue(None, q.answers[1..]))
  }

  /** Answers before the first key. */
  function Polls(answers: seq<Answer>): (n: nat)
    ensures n <= |answers|
    ensures forall i | 0 <= i < n :: answers[i] == NotReady
    ensures n < |answers| ==> answers[n].Success?
  {
    if answers == [] || answers[0].Success? then 0 else 1 + Polls(answers[1..])
  }

  predicate HasKey(q: Queue) { q.pending.Some? || Polls(q.answers) < |q.answers| }

  /** Waits for a key if none is pending. */
  function Getc(q: Queue): (byte, Queue)
    requires HasKey(q)
  {
    if q.pending.Some? then (Translate(q.pending.value), Queue(None, q.answers))
    else
      var n := Polls(q.answers);
      (Translate(q.answers[n].unit), Queue(None, q.answers[n + 1..]))
  }

  /** Up to n further keys, as long as one is ready. */
  function TakeReady(q: Queue, n: nat): (Bytes, Queue)
    decreases n
  {
    if n == 0 then ([], q)
    else
      var (ready, q1) := DataReady(q);
      if !ready then ([], q1)
      else
        var (b, q2) := Getc(q1);
        var (bs, q3) := TakeReady(q2, n - 1);
        ([b] + bs, q3)
  }

  function Read(q: Queue, len: nat): (Bytes, Queue)
    requires len > 0 ==> HasKey(q)
  {
    if len == 0 then ([], q)
    else
      var (b, q1) := Getc(q);
      var (bs, q2) := TakeReady(q1, len - 1);
      ([b] + bs, q2)
  }

  // ---- First in, first out ----------------------------------------------------------------------

  /** The keys from position n on, the one at n first. */
  function KeysFrom(answers: seq<Answer>, n: nat): Bytes
    requires n <= |answers| && (n < |answers| ==> answers[n].Success?)
  {
    if n < |answers| then [Translate(answers[n].unit)] + KeysIn(answers[n + 1..]) else []
  }

  lemma {:induction false} KeysAfterPolls(answers: seq<Answer>)
    ensures KeysIn(answers) == KeysFrom(answers, Polls(answers))
  {
    if answers != [] {
      KeysUnfold(answers);
      hide KeysIn;
      if answers[0].NotReady? {
        KeysAfterPolls(answers[1..]);
        SkipOne(answers, Polls(answers[1..]));
        hide KeysFrom;
      }
    }
  }

  lemma KeysUnfold(answers: seq<Answer>)
    requires answers != []
    ensures KeysIn(answers) == (if answers[0].Success? then [Translate(answers[0].unit)] else []) + KeysIn(answers[1..])
    ensures answers[0].NotReady? ==> KeysIn(answers) == KeysIn(answers[1..])
  {
    assert [] + KeysIn(answers[1..]) == KeysIn(answers[1..]);
  }

  lemma SkipOne(answers: seq<Answer>, n: nat)
    requires answers != [] && n <= |answers[1..]| && (n < |answers[1..]| ==> answers[1..][n].Success?)
    ensures KeysFrom(answers[1..], n) == KeysFrom(answers, n + 1)
  {
    hide KeysIn, Translate;
    TailSlices(answers, n);
    if n + 1 < |answers| {
      TailSlices(answers, n + 1);
    }
  }

  lemma DataReadyKeeps(q: Queue)
    ensures var (ready, q1) := DataReady(q);
            && Waiting(q1) == Waiting(q)
            && (ready <==> q1.pending.Some?)
  {
    if q.pending == None && q.answers != [] {
      assert [] + KeysIn(q.answers) == KeysIn(q.answers);
    }
  }

  lemma GetcDelivers(q: Queue)
    requires HasKey(q)
    ensures Delivers(q, [Getc(q).0], Getc(q).1)
  {
    KeysAfterPolls(q.answers);
    assert [] + KeysIn(Getc(q).1.answers) == KeysIn(Getc(q).1.answers);
  }

  /** These bytes are what was waiting before and no longer waits after. */
  ghost predicate Delivers(q: Queue, bs: Bytes, after: Queue) { Waiting(q) == bs + Waiting(after) }

  lemma DeliversInTurn(q: Queue, a: Bytes, mid: Queue, b: Bytes, after: Queue)
    requires Delivers(q, a, mid) && Delivers(mid, b, after)
    ensures Delivers(q, a + b, after)
  {
    hide Waiting;
    assert a + (b + Waiting(after)) == a + b + Waiting(after);
  }

  lemma DeliversNothing(q: Queue, after: Queue)
    requires Waiting(q) == Waiting(after)
    ensures Delivers(q, [], after)
  {
    hide Waiting;
    assert [] + Waiting(after) == Waiting(after);
  }

  lemma {:induction false} TakeReadyDelivers(q: Queue, n: nat)
    ensures Delivers(q, TakeReady(q, n).0, TakeReady(q, n).1) && |TakeReady(q, n).0| <= n
    decreases n
  {
    var (ready, q1) := DataReady(q);
    DataReadyKeeps(q);
    DeliversNothing(q, q1);
    DeliversNothing(q, q);
    if n > 0 && ready {
      var (b, q2) := Getc(q1);
      GetcDelivers(q1);
      TakeReadyDelivers(q2, n - 1);
      var (bs, q3) := TakeReady(q2, n - 1);
      assert TakeReady(q, n) == ([b] + bs, q3);
      hide *;
      assert [] + ([b] + bs) == [b] + bs;
      DeliversInTurn(q1, [b], q2, bs, q3);
      DeliversInTurn(q, [], q1, [b] + bs, q3);
    }
  }

  /** A read returns between one and len bytes, the oldest keystrokes first. */
  lemma ReadDelivers(q: Queue, len: nat)
    requires len > 0 ==> HasKey(q)
    ensures Delivers(q, Read(q, len).0, Read(q, len).1)
    ensures len > 0 ==> 1 <= |Read(q, len).0| <= len
  {
    DeliversNothing(q, q);
    if len > 0 {
      var (b, q1) := Getc(q);
      var (bs, q2) := TakeReady(q1, len - 1);
      GetcDelivers(q);
      TakeReadyDelivers(q1, len - 1);
      DeliversInTurn(q, [b], q1, bs, q2);
    }
    hide Getc, TakeReady, Delivers;
  }

  /** Every poll but the last finds a key, and only a poll that finds none stops short of n keys. */
  lemma {:induction false} TakeReadyNeverWaits(q: Queue, n: nat)
    requires q.pending == None
    ensures TakeReady(q, n).1.pending == None
    ensures PolledFor(q.answers, TakeReady(q, n).0, TakeReady(q, n).1.answers, n)
    decreases n
  {
    assert q.answers[0..] == q.answers;
    if n > 0 && q.answers != [] && q.answers[0].Success? {
      var q2 := Queue(None, q.answers[1..]);
      assert Getc(DataReady(q).1) == (Translate(q.answers[0].unit), q2);
      TakeReadyNeverWaits(q2, n - 1);
      var (bs, q1) := TakeReady(q2, n - 1);
      assert TakeReady(q, n) == ([Translate(q.answers[0].unit)] + bs, q1);
      hide TakeReady, Getc, DataReady, Polls, Translate;
      OneMorePoll(q.answers, bs, q1.answers, n);
    }
  }

  /**
    A read that returns less than it was asked for has found no further key: its last poll was
    answered "not ready", or the device has nothing more to say.
   */
  lemma ReadTakesAllReady(q: Queue, len: nat)
    requires len > 0 && HasKey(q)
    ensures var (bs, after) := Read(q, len);
            && |after.answers| <= |q.answers| && after.pending == None
            && (|bs| < len && after.answers != [] ==>
                  |after.answers| < |q.answers| && q.answers[|q.answers| - |after.answers| - 1] == NotReady)
  {
    var (b, q1) := Getc(q);
    var (bs, after) := TakeReady(q1, len - 1);
    TakeReadyNeverWaits(q1, len - 1);
    hide TakeReady, Translate;
    var n := if q.pending.Some? then 0 else Polls(q.answers) + 1;
    assert q1.answers == q.answers[n..];
    var polled := |q1.answers| - |after.answers|;
    if |bs| < len - 1 && after.answers != [] {
      assert polled > 0 ==> q1.answers[polled - 1] == q.answers[n + polled - 1];
    }
    hide Getc, TakeReady, Polls;
  }

  /** These bytes are the keys of the answers polled, and polling stopped for want of a key or at n bytes. */
  ghost predicate PolledFor(answers: seq<Answer>, bs: Bytes, left: seq<Answer>, n: nat) {
    var polled := |answers| - |left|;
    && 0 <= polled && left == answers[polled..]
    && |bs| <= |answers| && |bs| <= n
    && (forall i | 0 <= i < |bs| :: answers[i].Success? && bs[i] == Translate(answers[i].unit))
    && (|bs| == n ==> polled == n)
    && (|bs| < n ==> if |bs| < |answers| then polled == |bs| + 1 && answers[|bs|] == NotReady else polled == |bs|)
  }

  lemma OneMorePoll(answers: seq<Answer>, bs: Bytes, left: seq<Answer>, n: nat)
    requires n > 0 && answers != [] && answers[0].Success?
    requires PolledFor(answers[1..], bs, left, n - 1)
    ensures PolledFor(answers, [Translate(answers[0].unit)] + bs, left, n)
  {
    var rest := answers[1..];
    var polled := |rest| - |left|;
    hide Translate;
    assert rest[polled..] == answers[1 + polled..];
    forall i | 0 <= i < |bs| + 1
      ensures answers[i].Success? && ([Translate(answers[0].unit)] + bs)[i] == Translate(answers[i].unit)
    {
      if i > 0 {
        assert rest[i - 1] == answers[i];
      }
    }
  }

  /** The polls from a position on: not ready until the first key. */
  lemma PollsAt(answers: seq<Answer>, start: nat)
    requires start <= |answers|
    ensures var n := Polls(answers[start..]);
            && start + n <= |answers|
            && (forall i | start <= i < start + n :: answers[i] == NotReady)
            && (start + n < |answers| ==> answers[start + n].Success? && answers[start..][n] == answers[start + n])
  {
    var n := Polls(answers[start..]);
    forall i | start <= i < start + n
      ensures answers[i] == NotReady
    {
      assert answers[start..][i - start] == answers[i];
    }
  }

  /** What getc does from a position on in the device's answers. */
  lemma GetcAt(pending: Option<nat>, answers: seq<Answer>, start: nat)
    requires start <= |answers| && HasKey(Queue(pending, answers[start..]))
    ensures pending.Some? ==> Getc(Queue(pending, answers[start..])) == (Translate(pending.value), Queue(None, answers[start..]))
    ensures var n := Polls(answers[start..]);
            pending == None ==>
              && start + n < |answers| && answers[start + n].Success?
              && (forall i | start <= i < start + n :: answers[i] == NotReady)
              && Getc(Queue(None, answers[start..])) == (Translate(answers[start + n].unit), Queue(None, answers[start + n + 1..]))
  {
    PollsAt(answers, start);
    hide Polls, Translate;
    if pending == None {
      var n := Polls(answers[start..]);
      assert answers[start..][n + 1..] == answers[start + n + 1..];
    }
  }

  /** One more turn of a read's loop. */
  lemma TakeReadyUnfolds(q: Queue, n: nat)
    requires n > 0
    ensures !DataReady(q).0 ==> TakeReady(q, n) == ([], DataReady(q).1)
    ensures DataReady(q).0 ==>
              && HasKey(DataReady(q).1)
              && var (b, q2) := Getc(DataReady(q).1);
                 TakeReady(q, n) == ([b] + TakeReady(q2, n - 1).0, TakeReady(q2, n - 1).1)
  {
    hide Getc;
  }

  lemma TakeReadyNone(q: Queue)
    ensures TakeReady(q, 0) == ([], q)
  {
  }

  datatype Call = CallReady | CallGetc | CallRead(len: nat)

  predicate CanAnswer(q: Queue, c: Call) {
    match c
    case CallReady => true
    case CallGetc => HasKey(q)
    case CallRead(len) => len > 0 ==> HasKey(q)
  }

  /** The bytes of one call, and the queue after it. */
  function CallResult(q: Queue, c: Call): (Bytes, Queue)
    requires CanAnswer(q, c)
  {
    match c
    case CallReady => ([], DataReady(q).1)
    case CallGetc => ([Getc(q).0], Getc(q).1)
    case CallRead(len) => Read(q, len)
  }

  /** No call of the list waits for ever. */
  predicate Answered(q: Queue, calls: seq<Call>)
    decreases |calls|
  {
    calls == [] || (CanAnswer(q, calls[0]) && Answered(CallResult(q, calls[0]).1, calls[1..]))
  }

  /** All bytes delivered by a list of calls. */
  function Delivered(q: Queue, calls: seq<Call>): (Bytes, Queue)
    requires Answered(q, calls)
    decreases |calls|
  {
    if calls == [] then ([], q)
    else
      var (b, q1) := CallResult(q, calls[0]);
      var (bs, q2) := Delivered(q1, calls[1..]);
      (b + bs, q2)
  }

  /** Whatever the mixture of calls, keystrokes come out in order, none lost and none twice. */
  lemma {:induction false} FirstInFirstOut(q: Queue, calls: seq<Call>)
    requires Answered(q, calls)
    ensures Delivers(q, Delivered(q, calls).0, Delivered(q, calls).1)
    decreases |calls|
  {
    hide CallResult, CanAnswer, Delivers, Waiting;
    if calls == [] {
      DeliversNothing(q, q);
    } else {
      var (b, q1) := CallResult(q, calls[0]);
      CallDelivers(q, calls[0]);
      FirstInFirstOut(q1, calls[1..]);
      var (bs, q2) := Delivered(q1, calls[1..]);
      DeliversInTurn(q, b, q1, bs, q2);
    }
  }

  lemma CallDelivers(q: Queue, c: Call)
    requires CanAnswer(q, c)
    ensures Delivers(q, CallResult(q, c).0, CallResult(q, c).1)
  {
    match c
    case CallReady =>
      DataReadyKeeps(q);
      DeliversNothing(q, DataReady(q).1);
    case CallGetc =>
      GetcDelivers(q);
    case CallRead(len) =>
      ReadDelivers(q, len);
  }

  // ---- The calls themselves ----------------------------------------------------------------------

  class Keyboard {
    const answers: seq<Answer>
    var polled: nat
    var pendingKey: nat
    var pendingKeyValid: bool

    ghost predicate Valid()
      reads this
    {
      polled <= |answers|
    }

    ghost function Contents(): Queue
      reads this
      requires Valid()
    {
      Queue(if pendingKeyValid then Some(pendingKey) else None, answers[polled..])
    }

    constructor (answers: seq<Answer>)
      ensures Valid() && Contents() == Queue(None, answers)
    {
      this.answers := answers;
      polled, pendingKey, pendingKeyValid := 0, 0, false;
    }

    /** Stores a key in the look-ahead slot, or leaves the slot as it is. */
    method ReadKeyStroke() returns (success: bool)
      requires Valid()
      modifies this`polled, this`pendingKey
      ensures Valid() && polled == if old(polled) < |answers| then old(polled) + 1 else old(polled)
      ensures success <==> old(polled) < |answers| && answers[old(polled)].Success?
      ensures pendingKey == if success then answers[old(polled)].unit else old(pendingKey)
    {
      if polled == |answers| {
        return false;
      }
      var a := answers[polled];
      polled := polled + 1;
      if a.Success? {
        pendingKey := a.unit;
      }
      success := a.Success?;
    }

    method DataReadyCall() returns (ready: bool)
      requires Valid()
      modifies this
      ensures Valid() && (ready, Contents()) == DataReady(old(Contents()))
    {
      if pendingKeyValid {
        return true;
      }
      assert polled < |answers| ==> answers[polled..][0] == answers[polled] && answers[polled..][1..] == answers[polled + 1..];
      var success := ReadKeyStroke();
      if success {
        pendingKeyValid := true;
        return true;
      }
      return false;
    }

    /** The polling loop: n polls in vain, and one that stores a key. */
    method WaitForKey(ghost n: nat)
      requires polled + n < |answers| && answers[polled + n].Success?
      requires forall i | polled <= i < polled + n :: answers[i] == NotReady
      modifies this`polled, this`pendingKey
      ensures polled == old(polled) + n + 1 && polled <= |answers| && pendingKey == answers[polled - 1].unit
    {
      ghost var start := polled;
      var success := ReadKeyStroke();
      while !success
        invariant start < polled <= start + n + 1
        invariant success <==> polled == start + n + 1
        invariant success ==> pendingKey == answers[start + n].unit
        decreases start + n + 1 - polled
      {
        success := ReadKeyStroke();
      }
    }

    method GetcCall() returns (b: byte)
      requires Valid() && HasKey(Contents())
      modifies this
      ensures Valid() && (b, Contents()) == Getc(old(Contents()))
    {
      ghost var before, start, n := Contents(), polled, Polls(answers[polled..]);
      GetcAt(before.pending, answers, start);
      hide Polls, Getc, Translate, HasKey;
      if !pendingKeyValid {
        WaitForKey(n);
      }
      pendingKeyValid := false;
      assert Getc(before) == (Translate(pendingKey), Contents());
      b := if pendingKey == 0x0D then 0x0A else if pendingKey != 0 then pendingKey % 256 else 0;
      LowByte(pendingKey);
    }

    method ReadCall(len: nat) returns (buf: Bytes)
      requires Valid() && (len > 0 ==> HasKey(Contents()))
      modifies this
      ensures Valid() && (buf, Contents()) == Read(old(Contents()), len)
    {
      if len == 0 {
        return [];
      }
      ghost var whole := Read(Contents(), len);
      hide DataReady, TakeReady, Getc, HasKey;
      var first := GetcCall();
      buf := [first];
      var i := 1;
      while i < len
        invariant Valid() && 1 <= i <= len && |buf| == i
        invariant whole == (buf + TakeReady(Contents(), len - i).0, TakeReady(Contents(), len - i).1)
      {
        TakeReadyUnfolds(Contents(), len - i);
        var ready := DataReadyCall();
        if !ready {
          assert buf + [] == buf;
          return;
        }
        var b := GetcCall();
        Associative(buf, [b], TakeReady(Contents(), len - i - 1).0);
        buf := buf + [b];
        i := i + 1;
      }
      TakeReadyNone(Contents());
      assert buf + [] == buf;
    }
  }
}
