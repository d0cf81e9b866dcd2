/** The intake path of `parse_and_queue_message` and the administration
    operations on the history log and the suppression table, as functions of
    the shared state. The `Engine` class performs them in place. */
module Intake {

  import opened Wrappers
  import opened Text
  import opened Wire
  import opened Queue

  /** One `message_history` record; `timestamp` is the intake time. */
  datatype HistoryEntry = HistoryEntry(
    id: string,
    timestamp: real,
    message: string,
    priority: int,
    color: string,
    bgColor: string)

  /** The state intake and administration touch: `message_history`,
      `ignored_messages` (normalised text to expiry time) and the queue. */
  datatype Store = Store(history: seq<HistoryEntry>, ignored: map<string, real>, queue: QueueState)

  /** How one submission ended. The source reports none of these to its
      caller; they name the branch taken. */
  datatype Outcome =
    | Malformed        // fewer than eight fields
    | Suppressed       // text currently ignored
    | BadPriority      // `int(priority)` raised
    | BadBlinkOrSpeed  // `int(blink_mode)` or `float(speed)` raised
    | Deduplicated     // same text and priority admitted under two seconds ago
    | Queued

  /** `text.strip().lower()`, the suppression key: no ASCII capital and no
      whitespace at either end remains. */
  function NormalizedKey(text: string): (key: string)
    ensures forall i :: 0 <= i < |key| ==> !IsUpper(key[i])
    ensures key == [] || (!IsSpace(key[0]) && !IsSpace(key[|key| - 1]))
  {
    Lower(Strip(text))
  }

  /** Two texts share a suppression key exactly when, stripped, they differ
      only in the case of their ASCII letters. */
  lemma SameKeyIff(a: string, b: string)
    ensures NormalizedKey(a) == NormalizedKey(b) <==> CaseInsensitiveEqual(Strip(a), Strip(b))
  {
    LowerEqualIff(Strip(a), Strip(b));
  }

  /** Stripping first does not change the key, so the key of a history entry
      (whose text is already stripped) is the key of the submitted text. */
  lemma NormalizedKeyOfStripped(text: string)
    ensures NormalizedKey(Strip(text)) == NormalizedKey(text)
  {
    StripIdempotent(text);
  }

  /** The suppression table after the sweep: entries whose expiry is strictly
      before `now` are dropped, all others kept with their expiry. */
  function Unexpired(ignored: map<string, real>, now: real): (r: map<string, real>)
    ensures forall k :: k in r <==> k in ignored && now <= ignored[k]
    ensures forall k :: k in r ==> r[k] == ignored[k]
  {
    map k | k in ignored && !(ignored[k] < now) :: ignored[k]
  }

  /** A later sweep subsumes an earlier one. */
  lemma UnexpiredLater(ignored: map<string, real>, t1: real, t2: real)
    requires t1 <= t2
    ensures Unexpired(Unexpired(ignored, t1), t2) == Unexpired(ignored, t2)
  {
  }

  /** The history entry an accepted priority produces. */
  function EntryFor(rec: WireRecord, priority: int, id: string, now: real): HistoryEntry
  {
    HistoryEntry(id, now, Strip(rec.text), priority, rec.color, rec.bgColor)
  }

  /** The `Message` built once blink mode and speed parse. */
  function MessageFor(rec: WireRecord, priority: int, blinkMode: int, id: string): Message
  {
    Message(rec.text, priority, blinkMode, rec.color, rec.bgColor, rec.speed, rec.wavPath, rec.speechFlag, id)
  }

  /** `parse_and_queue_message(data)` at time `now`, with `id` the fresh
      identifier `uuid4()` would return. The steps run in the source's order:
      decode, sweep, suppression check, `int(priority)`, history append,
      `int(blink_mode)` and `float(speed)`, then `add_message`. */
  function ParseAndQueue(s: Store, data: string, now: real, id: string): (r: (Store, Outcome))
    ensures r.1 == Malformed <==> |Split(data)| < 8
    ensures r.1 == Malformed ==> r.0 == s
    ensures r.1 != Malformed ==> r.0.ignored == Unexpired(s.ignored, now)
    ensures Decode(data).Some? ==>
      var rec := Decode(data).value;
      var suppressed := NormalizedKey(rec.text) in Unexpired(s.ignored, now);
      && (r.1 == Suppressed <==> suppressed)
      && (r.1 == BadPriority <==> !suppressed && ParseInt(rec.priority).None?)
      && (r.1 == BadBlinkOrSpeed <==>
            && !suppressed && ParseInt(rec.priority).Some?
            && (ParseInt(rec.blinkMode).None? || !IsFloatLiteral(rec.speed)))
    ensures r.1 in {Malformed, Suppressed, BadPriority} ==> r.0.history == s.history
    ensures r.1 in {BadBlinkOrSpeed, Deduplicated, Queued} ==>
      && Decode(data).Some? && ParseInt(Decode(data).value.priority).Some?
      && r.0.history == s.history + [EntryFor(Decode(data).value, ParseInt(Decode(data).value.priority).value, id, now)]
    ensures r.1 != Queued ==> r.0.queue == s.queue
    ensures r.1 in {Deduplicated, Queued} ==>
      && Decode(data).Some?
      && var rec := Decode(data).value;
      && ParseInt(rec.priority).Some? && ParseInt(rec.blinkMode).Some? && IsFloatLiteral(rec.speed)
      && var admitted := Admit(s.queue, MessageFor(rec, ParseInt(rec.priority).value, ParseInt(rec.blinkMode).value, id), now);
      && r.0.queue == admitted.0
      && (r.1 == Queued <==> admitted.1)
    ensures r.1 == Queued ==>
      && |r.0.queue.pending| == |s.queue.pending| + 1
      && r.0.queue.pending[..|s.queue.pending|] == s.queue.pending
      && r.0.queue.pending[|s.queue.pending|].id == id
  {
    match Decode(data)
    case None => (s, Malformed)
    case Some(rec) =>
      var swept := s.(ignored := Unexpired(s.ignored, now));
      if NormalizedKey(rec.text) in swept.ignored then (swept, Suppressed)
      else
        match ParseInt(rec.priority)
        case None => (swept, BadPriority)
        case Some(p) =>
          var logged := swept.(history := s.history + [EntryFor(rec, p, id, now)]);
          match ParseInt(rec.blinkMode)
          case None => (logged, BadBlinkOrSpeed)
          case Some(b) =>
            if !IsFloatLiteral(rec.speed) then (logged, BadBlinkOrSpeed)
            else
              var (q, admitted) := Admit(s.queue, MessageFor(rec, p, b, id), now);
              assert admitted ==> q.pending == s.queue.pending + [MessageFor(rec, p, b, id)];
              (logged.(queue := q), if admitted then Queued else Deduplicated)
  }

  /** A submission is suppressed exactly when it decodes and the table holds
      its key with an expiry not before `now`; an expiry equal to `now` still
      suppresses. */
  lemma SuppressedIff(s: Store, data: string, now: real, id: string)
    ensures ParseAndQueue(s, data, now, id).1 == Suppressed <==>
      && Decode(data).Some?
      && NormalizedKey(Decode(data).value.text) in s.ignored
      && now <= s.ignored[NormalizedKey(Decode(data).value.text)]
  {
  }

  /** A second submission with the same text and priority less than two
      seconds after one that was queued queues nothing, yet adds its own
      history entry, provided its blink mode and speed parse. */
  lemma {:induction false} ResubmitWithinWindow(
    s: Store, data1: string, t1: real, id1: string, data2: string, t2: real, id2: string)
    requires ParseAndQueue(s, data1, t1, id1).1 == Queued
    requires Decode(data1).Some? && Decode(data2).Some?
    requires Decode(data2).value.text == Decode(data1).value.text
    requires ParseInt(Decode(data2).value.priority) == ParseInt(Decode(data1).value.priority)
    requires ParseInt(Decode(data2).value.blinkMode).Some? && IsFloatLiteral(Decode(data2).value.speed)
    requires t1 <= t2 < t1 + DedupWindow
    ensures ParseAndQueue(ParseAndQueue(s, data1, t1, id1).0, data2, t2, id2).1 == Deduplicated
    ensures ParseAndQueue(ParseAndQueue(s, data1, t1, id1).0, data2, t2, id2).0.queue == ParseAndQueue(s, data1, t1, id1).0.queue
    ensures |ParseAndQueue(ParseAndQueue(s, data1, t1, id1).0, data2, t2, id2).0.history| == |s.history| + 2
  {
    var rec1, rec2 := Decode(data1).value, Decode(data2).value;
    var s1 := ParseAndQueue(s, data1, t1, id1).0;
    var key := NormalizedKey(rec1.text);
    assert key !in Unexpired(s.ignored, t1);
    UnexpiredLater(s.ignored, t1, t2);
    assert key !in Unexpired(s1.ignored, t2);
    var p := ParseInt(rec1.priority).value;
    var m1 := MessageFor(rec1, p, ParseInt(rec1.blinkMode).value, id1);
    var m2 := MessageFor(rec2, p, ParseInt(rec2.blinkMode).value, id2);
    assert s1.queue == Admit(s.queue, m1, t1).0;
    AdmitTwiceWithinWindow(s.queue, m1, m2, t1, t2);
    var r2 := ParseAndQueue(s1, data2, t2, id2);
    assert r2.1 !in {Malformed, Suppressed, BadPriority, BadBlinkOrSpeed};
  }

  /** `reversed(message_history)`: the most recent entry first. */
  function NewestFirst(history: seq<HistoryEntry>): (r: seq<HistoryEntry>)
    ensures |r| == |history|
    ensures forall i :: 0 <= i < |r| ==> r[i] == history[|history| - 1 - i]
  {
    if history == [] then [] else NewestFirst(history[1..]) + [history[0]]
  }

  /** The position of the first entry with identifier `id`, or the length. */
  function FirstWithId(history: seq<HistoryEntry>, id: string): (k: nat)
    ensures k <= |history|
    ensures forall i :: 0 <= i < k ==> history[i].id != id
    ensures k < |history| ==> history[k].id == id
  {
    if history == [] then 0
    else if history[0].id == id then 0
    else 1 + FirstWithId(history[1..], id)
  }

  /** `[msg for msg in message_history if msg.get('id') != id]`. */
  function RemoveId(history: seq<HistoryEntry>, id: string): (r: seq<HistoryEntry>)
    ensures forall e :: e in r <==> e in history && e.id != id
  {
    if history == [] then []
    else (if history[0].id == id then [] else [history[0]]) + RemoveId(history[1..], id)
  }

  /** Filtering keeps the relative order: it distributes over concatenation. */
  lemma {:induction false} RemoveIdAppend(h1: seq<HistoryEntry>, h2: seq<HistoryEntry>, id: string)
    ensures RemoveId(h1 + h2, id) == RemoveId(h1, id) + RemoveId(h2, id)
  {
    if h1 == [] {
      assert h1 + h2 == h2;
    } else {
      assert (h1 + h2)[1..] == h1[1..] + h2;
      RemoveIdAppend(h1[1..], h2, id);
    }
  }

  /** Filtering by an identifier no entry carries changes nothing. */
  lemma {:induction false} RemoveIdAbsent(history: seq<HistoryEntry>, id: string)
    requires forall i :: 0 <= i < |history| ==> history[i].id != id
    ensures RemoveId(history, id) == history
  {
    if history != [] {
      RemoveIdAbsent(history[1..], id);
    }
  }

  /** Seconds per minute of an ignore duration. */
  const SecondsPerMinute: int := 60

  /** The duration, in minutes, of an ignore request that names none. */
  const DefaultIgnoreMinutes: int := 5

  /** 2^1024 - 2^970: the least integer Python's `int`-to-`float` conversion
      rounds past the largest double, so from here on in absolute value it
      raises `OverflowError`. */
  const FloatOverflow: int := 0xFFFFFFFFFFFFFC00000000000000000000000000000000000000000000000000000000000000000000000000000000000000000000000000000000000000000000000000000000000000000000000000000000000000000000000000000000000000000000000000000000000000000000000000000000000000000000000000

  /** Whether `timestamp + int(duration) * 60` can convert the product to a
      float; otherwise it raises before the table is written. */
  predicate ExpiryFitsFloat(duration: int)
  {
    -FloatOverflow < duration * SecondsPerMinute < FloatOverflow
  }

  /** `ignore_message(id, duration)` at time `now`: the first entry with that
      identifier names the suppressed key, which expires `duration` minutes
      from now; then every entry with that identifier leaves the history.
      Two steps after a match can raise and end the request. Computing the
      expiry raises when the duration in seconds does not fit a float
      (`ExpiryFitsFloat`), before anything is written. The log line's
      `datetime.fromtimestamp(expiry)` raises for an expiry outside the
      years 1 to 9999 (`logOk` false), after the table is written and before
      the history is filtered. */
  function Ignore(s: Store, id: string, duration: int, now: real, logOk: bool): (r: Store)
    ensures r.queue == s.queue
    ensures r.history ==
      if FirstWithId(s.history, id) < |s.history| && (!ExpiryFitsFloat(duration) || !logOk) then s.history
      else RemoveId(s.history, id)
    ensures FirstWithId(s.history, id) == |s.history| || !ExpiryFitsFloat(duration) ==> r.ignored == s.ignored
    ensures FirstWithId(s.history, id) < |s.history| && ExpiryFitsFloat(duration) ==>
      var key := NormalizedKey(s.history[FirstWithId(s.history, id)].message);
      && (forall k :: k in r.ignored <==> k in s.ignored || k == key)
      && r.ignored[key] == now + (duration * SecondsPerMinute) as real
      && forall k :: k in s.ignored && k != key ==> r.ignored[k] == s.ignored[k]
  {
    var k := FirstWithId(s.history, id);
    if k < |s.history| && !ExpiryFitsFloat(duration) then s
    else if k < |s.history| then
      var ignored := s.ignored[NormalizedKey(s.history[k].message) := now + (duration * SecondsPerMinute) as real];
      s.(ignored := ignored, history := if logOk then RemoveId(s.history, id) else s.history)
    else s.(history := RemoveId(s.history, id))
  }

  /** Ignoring an identifier that is not in the history changes nothing. */
  lemma IgnoreUnknownId(s: Store, id: string, duration: int, now: real, logOk: bool)
    requires forall i :: 0 <= i < |s.history| ==> s.history[i].id != id
    ensures Ignore(s, id, duration, now, logOk) == s
  {
    RemoveIdAbsent(s.history, id);
  }

  /** A duration too large for a float changes nothing: the request raises
      before the table is written and before the history is filtered. */
  lemma IgnoreOverflowChangesNothing(s: Store, id: string, duration: int, now: real, logOk: bool)
    requires FirstWithId(s.history, id) < |s.history|
    requires !ExpiryFitsFloat(duration)
    ensures Ignore(s, id, duration, now, logOk) == s
  {
  }

  /** The default duration, and any duration of up to a thousand years,
      fits a float. */
  lemma ReasonableDurationFits(duration: int)
    requires -1000 * 366 * 24 * 60 <= duration <= 1000 * 366 * 24 * 60
    ensures ExpiryFitsFloat(duration) && ExpiryFitsFloat(DefaultIgnoreMinutes)
  {
  }

  /** After an entry is ignored, any submission whose text normalises to the
      same key is suppressed until the expiry, and the expiry instant itself
      still suppresses. */
  lemma IgnoreSuppresses(s: Store, id: string, duration: int, t0: real, logOk: bool, data: string, t: real, id2: string)
    requires FirstWithId(s.history, id) < |s.history|
    requires Decode(data).Some?
    requires NormalizedKey(Decode(data).value.text) == NormalizedKey(s.history[FirstWithId(s.history, id)].message)
    requires ExpiryFitsFloat(duration)
    requires t <= t0 + (duration * SecondsPerMinute) as real
    ensures ParseAndQueue(Ignore(s, id, duration, t0, logOk), data, t, id2).1 == Suppressed
  {
    SuppressedIff(Ignore(s, id, duration, t0, logOk), data, t, id2);
  }

  /** After the expiry, the same key no longer suppresses. */
  lemma IgnoreExpires(s: Store, id: string, duration: int, t0: real, logOk: bool, data: string, t: real, id2: string)
    requires FirstWithId(s.history, id) < |s.history|
    requires Decode(data).Some?
    requires NormalizedKey(Decode(data).value.text) == NormalizedKey(s.history[FirstWithId(s.history, id)].message)
    requires ExpiryFitsFloat(duration)
    requires t > t0 + (duration * SecondsPerMinute) as real
    ensures ParseAndQueue(Ignore(s, id, duration, t0, logOk), data, t, id2).1 != Suppressed
  {
    SuppressedIff(Ignore(s, id, duration, t0, logOk), data, t, id2);
  }

  /** End to end: a record is accepted into the history under a fresh `id`,
      the user ignores `id`, and the same record submitted again before the
      expiry is suppressed. */
  lemma {:induction false} AcceptIgnoreResubmit(
    s: Store, data: string, t0: real, id: string, duration: int, t1: real, logOk: bool, t2: real, id2: string)
    requires forall i :: 0 <= i < |s.history| ==> s.history[i].id != id
    requires ParseAndQueue(s, data, t0, id).1 in {BadBlinkOrSpeed, Deduplicated, Queued}
    requires ExpiryFitsFloat(duration)
    requires t2 <= t1 + (duration * SecondsPerMinute) as real
    ensures ParseAndQueue(Ignore(ParseAndQueue(s, data, t0, id).0, id, duration, t1, logOk), data, t2, id2).1 == Suppressed
  {
    var s1 := ParseAndQueue(s, data, t0, id).0;
    var rec := Decode(data).value;
    var k := FirstWithId(s1.history, id);
    assert s1.history[|s.history|].id == id;
    assert k == |s.history|;
    assert s1.history[k].message == Strip(rec.text);
    NormalizedKeyOfStripped(rec.text);
    IgnoreSuppresses(s1, id, duration, t1, logOk, data, t2, id2);
  }

  /** `clear_history`: empties the history, leaves table and queue alone. */
  function ClearHistory(s: Store): (r: Store)
    ensures r.history == [] && r.ignored == s.ignored && r.queue == s.queue
  {
    s.(history := [])
  }

  /** Clearing the history neither lifts nor adds a suppression. */
  lemma ClearHistoryKeepsSuppression(s: Store, data: string, now: real, id: string)
    ensures ParseAndQueue(ClearHistory(s), data, now, id).1 == Suppressed <==> ParseAndQueue(s, data, now, id).1 == Suppressed
  {
    SuppressedIff(s, data, now, id);
    SuppressedIff(ClearHistory(s), data, now, id);
  }
}
