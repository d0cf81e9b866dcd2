/** `Message` and `MessageQueue`: a min-priority heap of pending messages and
    the set of recently admitted `text_priority` keys, each of which a timer
    removes two seconds after admission. */
module Queue {

  import opened Wrappers
  import opened Text

  /** A queued notification. `speed` stays the text `float()` accepted. */
  datatype Message = Message(
    text: string,
    priority: int,
    blinkMode: int,
    color: string,
    bgColor: string,
    speed: string,
    wavPath: string,
    useEspeak: string,
    id: string)

  /** `Message.__lt__`: only the priority is compared, so two messages of
      equal priority are unordered. */
  predicate Before(a: Message, b: Message)
  {
    a.priority < b.priority
  }

  /** `Before` is a strict weak order: irreflexive, asymmetric and
      transitive, and two messages are unordered exactly when their
      priorities are equal, whatever their texts, colours or ids. */
  lemma BeforeIsStrictWeakOrder(a: Message, b: Message, c: Message)
    ensures !Before(a, a)
    ensures Before(a, b) ==> !Before(b, a)
    ensures Before(a, b) && Before(b, c) ==> Before(a, c)
    ensures !Before(a, b) && !Before(b, a) <==> a.priority == b.priority
    ensures !Before(a, b) && !Before(b, c) ==> !Before(a, c)
  {
  }

  /** `f"{text}_{priority}"`, the deduplication key. */
  function DedupKey(text: string, priority: int): (key: string)
  {
    text + "_" + IntToString(priority)
  }

  /** The part of `s` after its last `c` (all of `s` when there is none). */
  function AfterLast(s: string, c: char): string
  {
    if |s| == 0 || s[|s| - 1] == c then "" else AfterLast(s[..|s| - 1], c) + [s[|s| - 1]]
  }

  lemma {:induction false} AfterLastSuffix(t: string, c: char, a: string)
    requires c !in a
    ensures AfterLast(t + [c] + a, c) == a
    decreases |a|
  {
    var s := t + [c] + a;
    if |a| > 0 {
      assert s[..|s| - 1] == t + [c] + a[..|a| - 1];
      AfterLastSuffix(t, c, a[..|a| - 1]);
      assert a == a[..|a| - 1] + [a[|a| - 1]];
    }
  }

  /** The key tells text and priority apart: `str(priority)` never contains
      an underscore, so the last underscore of the key separates the two. */
  lemma DedupKeyInjective(t1: string, p1: int, t2: string, p2: int)
    requires DedupKey(t1, p1) == DedupKey(t2, p2)
    ensures t1 == t2 && p1 == p2
  {
    var k := DedupKey(t1, p1);
    var a, b := IntToString(p1), IntToString(p2);
    assert k == t1 + ['_'] + a == t2 + ['_'] + b;
    AfterLastSuffix(t1, '_', a);
    AfterLastSuffix(t2, '_', b);
    assert t1 == k[..|t1|] == t2;
    IntToStringInjective(p1, p2);
  }

  /** How long an admitted key blocks an identical submission, in seconds. */
  const DedupWindow: real := 2.0

  /** The key is still in `recent_messages` at time `now`: it was admitted
      less than two seconds ago and its timer has not fired. */
  predicate IsRecent(recent: map<string, real>, key: string, now: real)
  {
    key in recent && now < recent[key] + DedupWindow
  }

  /** The abstract queue: pending messages and the admission time of each
      key that was ever admitted (a key is live only while `IsRecent`). */
  datatype QueueState = QueueState(pending: seq<Message>, recent: map<string, real>)

  /** `add_message`: a message whose key is live is dropped; otherwise its
      key is recorded with the admission time and the message is queued. */
  function Admit(q: QueueState, msg: Message, now: real): (r: (QueueState, bool))
    ensures r.1 <==> !IsRecent(q.recent, DedupKey(msg.text, msg.priority), now)
    ensures r.1 ==> multiset(r.0.pending) == multiset(q.pending) + multiset{msg}
    ensures r.1 ==> IsRecent(r.0.recent, DedupKey(msg.text, msg.priority), now)
    ensures r.1 ==> r.0.recent == q.recent[DedupKey(msg.text, msg.priority) := now]
    ensures !r.1 ==> r.0 == q
  {
    var key := DedupKey(msg.text, msg.priority);
    if IsRecent(q.recent, key, now) then (q, false)
    else (QueueState(q.pending + [msg], q.recent[key := now]), true)
  }

  /** Two admissions of the same text and priority less than two seconds
      apart queue one message: the second is dropped. */
  lemma AdmitTwiceWithinWindow(q: QueueState, m1: Message, m2: Message, t1: real, t2: real)
    requires m1.text == m2.text && m1.priority == m2.priority
    requires Admit(q, m1, t1).1
    requires t1 <= t2 < t1 + DedupWindow
    ensures !Admit(Admit(q, m1, t1).0, m2, t2).1
    ensures Admit(Admit(q, m1, t1).0, m2, t2).0 == Admit(q, m1, t1).0
  {
  }

  /** Once the window has passed the same key is admitted again. */
  lemma AdmitAfterWindow(q: QueueState, m1: Message, m2: Message, t1: real, t2: real)
    requires Admit(q, m1, t1).1
    requires t2 >= t1 + DedupWindow
    ensures Admit(Admit(q, m1, t1).0, m2, t2).1 == !IsRecent(q.recent[DedupKey(m1.text, m1.priority) := t1], DedupKey(m2.text, m2.priority), t2)
    ensures m1.text == m2.text && m1.priority == m2.priority ==> Admit(Admit(q, m1, t1).0, m2, t2).1
  {
  }

  /** A message no pending message is `Before`. */
  predicate IsMinimal(m: Message, pending: seq<Message>)
  {
    forall x :: x in pending ==> !Before(x, m)
  }

  /** The position of the first message of least priority. */
  function MinIndex(pending: seq<Message>): (k: nat)
    requires pending != []
    ensures k < |pending|
    ensures forall j :: 0 <= j < |pending| ==> pending[k].priority <= pending[j].priority
  {
    if |pending| == 1 then 0
    else
      var k := MinIndex(pending[1..]);
      if pending[k + 1].priority < pending[0].priority then k + 1 else 0
  }

  /** `get_message`: `None` on an empty queue; otherwise one message of least
      priority, removed, and every other message still pending. Which of
      several equal-priority messages comes out is not promised. */
  function PopMin(q: QueueState): (r: (Option<Message>, QueueState))
    ensures r.0.None? <==> q.pending == []
    ensures r.0.None? ==> r.1 == q
    ensures r.0.Some? ==> r.0.value in q.pending && IsMinimal(r.0.value, q.pending)
    ensures r.0.Some? ==> multiset(r.1.pending) + multiset{r.0.value} == multiset(q.pending)
    ensures r.1.recent == q.recent
  {
    if q.pending == [] then (None, q)
    else
      var k := MinIndex(q.pending);
      (Some(q.pending[k]), q.(pending := RemoveAt(q.pending, k)))
  }

  /** `pending` without its element at `k`. */
  function RemoveAt(pending: seq<Message>, k: nat): (r: seq<Message>)
    requires k < |pending|
    ensures |r| == |pending| - 1
    ensures multiset(r) + multiset{pending[k]} == multiset(pending)
  {
    assert pending == pending[..k] + [pending[k]] + pending[k + 1..];
    pending[..k] + pending[k + 1..]
  }

  /** The messages `PopMin` yields one after another until the queue is
      empty. */
  function Drain(q: QueueState): (out: seq<Message>)
    decreases |q.pending|
  {
    var (m, rest) := PopMin(q);
    if m.None? then []
    else
      assert |rest.pending| < |q.pending| by {
        assert |multiset(rest.pending)| + 1 == |multiset(q.pending)|;
      }
      [m.value] + Drain(rest)
  }

  /** Priorities never decrease along `s`. */
  predicate Ascending(s: seq<Message>)
  {
    forall i, j :: 0 <= i < j < |s| ==> s[i].priority <= s[j].priority
  }

  /** A message no later than any of an ascending sequence can go in front. */
  lemma PrependLeast(m: Message, tail: seq<Message>)
    requires Ascending(tail)
    requires forall x :: x in tail ==> m.priority <= x.priority
    ensures Ascending([m] + tail)
  {
    var s := [m] + tail;
    forall i, j | 0 <= i < j < |s| ensures s[i].priority <= s[j].priority {
      assert s[j] == tail[j - 1];
      if i > 0 {
        assert s[i] == tail[i - 1];
      }
    }
  }

  /** Draining the queue yields every pending message once, in nondecreasing
      priority order. The proof uses only `PopMin`'s contract, so it holds for
      whichever least message each pop picks. */
  lemma {:induction false} DrainSorted(q: QueueState)
    ensures multiset(Drain(q)) == multiset(q.pending)
    ensures Ascending(Drain(q))
    decreases |q.pending|
  {
    var (m, rest) := PopMin(q);
    if m.Some? {
      assert |multiset(rest.pending)| + 1 == |multiset(q.pending)|;
      DrainSorted(rest);
      var tail := Drain(rest);
      assert Drain(q) == [m.value] + tail;
      forall x | x in tail ensures m.value.priority <= x.priority {
        assert x in multiset(rest.pending);
        assert x in multiset(q.pending);
      }
      PrependLeast(m.value, tail);
    }
  }

  /** `MessageQueue`: the heap's contents and `recent_messages`. */
  class MessageQueue {
    var pending: seq<Message>
    var recent: map<string, real>

    function State(): QueueState
      reads this
    {
      QueueState(pending, recent)
    }

    constructor ()
      ensures State() == QueueState([], map[])
    {
      pending := [];
      recent := map[];
    }

    /** `add_message`; the result says whether the message was queued. */
    method AddMessage(msg: Message, now: real) returns (admitted: bool)
      modifies this
      ensures (State(), admitted) == Admit(old(State()), msg, now)
    {
      var key := DedupKey(msg.text, msg.priority);
      if !IsRecent(recent, key, now) {
        recent := recent[key := now];
        pending := pending + [msg];
        admitted := true;
      } else {
        admitted := false;
      }
    }

    /** `get_message`. */
    method GetMessage() returns (msg: Option<Message>)
      modifies this
      ensures (msg, State()) == PopMin(old(State()))
    {
      if pending == [] {
        msg := None;
      } else {
        var k := MinIndex(pending);
        msg := Some(pending[k]);
        pending := RemoveAt(pending, k);
      }
    }
  }
}
