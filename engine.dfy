/** The notification engine's shared state and the operations that change it
    in place: intake, the periodic sweep, the history and suppression
    administration, and the display scheduler (`check_queue`,
    `show_marquee`, `create_window`, `destroy_window`, `update_marquee` and one
    pass of the main loop). Pygame is reduced to the few facts the scheduler
    reads from it, passed in as parameters. */
module Marquee {

  import opened Wrappers
  import opened Text
  import opened Wire
  import opened Queue
  import opened Intake
  import opened Glyphs
  import opened Scroll

  /** The frames `update_marquee` draws once rendering succeeded: the whole
      timeline when every frame delay returns, only its first frame when the
      first delay raises. */
  function ScrollFrames(width: nat, textWidth: nat, msg: Message, b0: bool, delayOk: bool): (frames: seq<Frame>)
    ensures var t := Timeline(width, textWidth, msg.text, msg.blinkMode, b0);
      && frames <= t
      && (delayOk ==> frames == t)
      && (!delayOk ==> |frames| == if |t| == 0 then 0 else 1)
  {
    var t := Timeline(width, textWidth, msg.text, msg.blinkMode, b0);
    if delayOk || |t| == 0 then t else t[..1]
  }

  /** Whether `pygame.time.delay(int(speed * 1000))` returns. It never does
      for the inf/nan spellings, whose product with 1000 `int()` refuses.
      For any other speed `delayInRange` says whether `int(speed * 1000)`
      and `pygame.time.delay` both return: a decimal speed such as `1e999`
      or `1e306` also overflows to an infinity, and pygame may refuse the
      delay. */
  predicate DelayOk(speed: string, delayInRange: bool): (ok: bool)
    ensures ok ==> delayInRange
    ensures IsNonFiniteLiteral(speed) ==> !ok
  {
    delayInRange && !IsNonFiniteLiteral(speed)
  }

  /** A message whose speed is an inf/nan spelling is drawn for at most one
      frame, whatever pygame would accept. */
  lemma NonFiniteSpeedShowsOneFrame(width: nat, textWidth: nat, msg: Message, b0: bool, delayInRange: bool)
    requires IsNonFiniteLiteral(msg.speed)
    ensures |ScrollFrames(width, textWidth, msg, b0, DelayOk(msg.speed, delayInRange))| <= 1
  {
  }

  /** The process-wide globals of the source, gathered in one object. */
  class Engine {
    var history: seq<HistoryEntry>      // message_history
    var ignored: map<string, real>      // ignored_messages
    const queue: MessageQueue           // message_queue
    var current: Option<Message>        // current_message
    var messageVisible: bool            // message_visible
    var windowVisible: bool             // window_visible
    var screen: Option<nat>             // screen, reduced to its width
    var blinkState: bool                // blink_state

    /** The window exists exactly when it is visible, and a message is marked
        visible exactly when one is current. */
    ghost predicate Valid()
      reads this
    {
      && (windowVisible <==> screen.Some?)
      && (messageVisible <==> current.Some?)
    }

    /** Nothing is being displayed and no window is open. */
    predicate Idle()
      reads this
    {
      current == None && !messageVisible && !windowVisible && screen == None
    }

    /** The part of the state that intake and administration work on. */
    function View(): Store
      reads this, queue
    {
      Store(history, ignored, queue.State())
    }

    constructor ()
      ensures Valid() && Idle() && blinkState
      ensures fresh(queue) && View() == Store([], map[], QueueState([], map[]))
    {
      history := [];
      ignored := map[];
      queue := new MessageQueue();
      current := None;
      messageVisible := false;
      windowVisible := false;
      screen := None;
      blinkState := true;
    }

    /** Deletes, one key at a time, every suppression whose expiry is
        strictly before `now`. */
    method SweepIgnored(now: real)
      modifies this`ignored
      ensures ignored == Unexpired(old(ignored), now)
    {
      ghost var before := ignored;
      var keys := ignored.Keys;
      while keys != {}
        invariant keys <= before.Keys
        invariant forall k :: k in ignored <==> k in before && (k in keys || now <= before[k])
        invariant forall k :: k in ignored ==> ignored[k] == before[k]
        decreases keys
      {
        var k :| k in keys;
        if ignored[k] < now {
          ignored := ignored - {k};
        }
        keys := keys - {k};
      }
      assert ignored.Keys == Unexpired(before, now).Keys;
    }

    /** `parse_and_queue_message(data)` at time `now`, `id` being the fresh
        identifier for the history entry and the message. */
    method ParseAndQueueMessage(data: string, now: real, id: string) returns (outcome: Outcome)
      modifies this`history, this`ignored, queue
      ensures (View(), outcome) == ParseAndQueue(old(View()), data, now, id)
    {
      var parts := Split(data);
      if |parts| < 8 {
        return Malformed;
      }
      var priority, blinkMode, text, color, bgColor, speed, wavPath, useEspeak :=
        parts[0], parts[1], parts[2], parts[3], parts[4], parts[5], parts[6], parts[7];
      if IsBlank(bgColor) {
        bgColor := DefaultBackground;
      }
      var key := NormalizedKey(text);
      SweepIgnored(now);
      if key in ignored {
        return Suppressed;
      }
      var p := ParseInt(priority);
      if p.None? {
        return BadPriority;
      }
      history := history + [HistoryEntry(id, now, Strip(text), p.value, color, bgColor)];
      var b := ParseInt(blinkMode);
      if b.None? || !IsFloatLiteral(speed) {
        return BadBlinkOrSpeed;
      }
      var msg := Message(text, p.value, b.value, color, bgColor, speed, wavPath, useEspeak, id);
      var admitted := queue.AddMessage(msg, now);
      outcome := if admitted then Queued else Deduplicated;
    }

    /** The `for msg in message_history` search of `ignore_message`: the
        position of the first entry with the identifier, or the length of the
        history when no entry has it. */
    method FindEntry(id: string) returns (i: nat)
      ensures i == FirstWithId(history, id)
    {
      i := 0;
      while i < |history|
        invariant i <= |history|
        invariant forall j :: 0 <= j < i ==> history[j].id != id
      {
        if history[i].id == id {
          return;
        }
        i := i + 1;
      }
    }

    /** `ignore_message(id, duration)` at time `now`: find the first entry
        with the identifier and suppress its text, then filter the history. A
        request without a duration ignores for five minutes. When the expiry
        does not fit a float the request ends before the table is written;
        when the log line raises (`logOk` false) it ends before the filter. */
    method IgnoreMessage(id: string, duration: Option<int>, now: real, logOk: bool)
      modifies this`history, this`ignored
      ensures View() == Ignore(old(View()), id, duration.GetOr(DefaultIgnoreMinutes), now, logOk)
    {
      var minutes := duration.GetOr(DefaultIgnoreMinutes);
      ghost var after := Ignore(View(), id, minutes, now, logOk);
      var i := FindEntry(id);
      if i < |history| {
        if !ExpiryFitsFloat(minutes) {
          return;
        }
        ignored := ignored[NormalizedKey(history[i].message) := now + (minutes * SecondsPerMinute) as real];
        assert ignored == after.ignored;
        if !logOk {
          return;
        }
      }
      history := RemoveId(history, id);
      assert history == after.history;
    }

    /** `clear_history`. */
    method ClearHistory()
      modifies this`history
      ensures View() == Intake.ClearHistory(old(View()))
    {
      history := [];
    }

    /** `create_window`: opens a window `screenWidth` wide unless one is
        already visible. `displayOk` is false when pygame raises while
        opening it. Returns whether a window was opened. */
    method CreateWindow(screenWidth: nat, displayOk: bool) returns (created: bool)
      requires Valid()
      modifies this`windowVisible, this`screen
      ensures Valid()
      ensures created <==> !old(windowVisible) && displayOk
      ensures created ==> windowVisible && screen == Some(screenWidth)
      ensures !created ==> windowVisible == old(windowVisible) && screen == old(screen)
    {
      if !windowVisible {
        if displayOk {
          screen := Some(screenWidth);
          windowVisible := true;
          return true;
        }
        return false;
      }
      return false;
    }

    /** `destroy_window`. */
    method DestroyWindow()
      requires Valid()
      modifies this`windowVisible, this`screen
      ensures Valid()
      ensures !windowVisible && screen == None
    {
      if windowVisible {
        windowVisible := false;
        screen := None;
      }
    }

    /** `show_marquee(msg)`: the message becomes current only if a window
        could be opened for it. */
    method ShowMarquee(msg: Message, screenWidth: nat, displayOk: bool)
      requires Valid()
      modifies this`windowVisible, this`screen, this`current, this`messageVisible
      ensures Valid()
      ensures !old(windowVisible) && displayOk ==>
        current == Some(msg) && messageVisible && windowVisible && screen == Some(screenWidth)
      ensures !(!old(windowVisible) && displayOk) ==>
        && current == old(current) && messageVisible == old(messageVisible)
        && windowVisible == old(windowVisible) && screen == old(screen)
    {
      var created := CreateWindow(screenWidth, displayOk);
      if created {
        current := Some(msg);
        messageVisible := true;
      }
    }

    /** `check_queue`: pop one message and show it; audio playback is
        requested for a non-empty `wav_path` whether or not the message
        could be shown. */
    method CheckQueue(screenWidth: nat, displayOk: bool) returns (popped: Option<Message>, audio: Option<string>)
      requires Valid()
      modifies queue, this`windowVisible, this`screen, this`current, this`messageVisible
      ensures Valid()
      ensures (popped, queue.State()) == PopMin(old(queue.State()))
      ensures audio == if popped.Some? && popped.value.wavPath != "" then Some(popped.value.wavPath) else None
      ensures popped.Some? && !old(windowVisible) && displayOk ==>
        current == popped && messageVisible && windowVisible && screen == Some(screenWidth)
      ensures !(popped.Some? && !old(windowVisible) && displayOk) ==>
        && current == old(current) && messageVisible == old(messageVisible)
        && windowVisible == old(windowVisible) && screen == old(screen)
    {
      popped := queue.GetMessage();
      audio := None;
      if popped.Some? {
        ShowMarquee(popped.value, screenWidth, displayOk);
        if popped.value.wavPath != "" {
          audio := Some(popped.value.wavPath);
        }
      }
    }

    /** The scroll loop of `update_marquee` while the window stays open: one
        frame per step of five pixels until the text has left the screen,
        the blink toggle flipping every thirtieth frame. When the frame
        delay raises, the loop is left after the first frame. */
    method ScrollMessage(msg: Message, width: nat, textWidth: nat, delayOk: bool) returns (frames: seq<Frame>)
      requires windowVisible
      modifies this`blinkState
      ensures frames == ScrollFrames(width, textWidth, msg, old(blinkState), delayOk)
      ensures blinkState == BlinkAfter(old(blinkState), |frames|)
    {
      ghost var b0 := blinkState;
      ghost var timeline := Timeline(width, textWidth, msg.text, msg.blinkMode, b0);
      frames := [];
      var x: int := width;
      var blinkCounter := 0;
      while x > -(textWidth as int)
        invariant x == width - Step * |frames|
        invariant blinkCounter == |frames| % BlinkPeriod
        invariant blinkState == BlinkAfter(b0, |frames|)
        invariant |frames| <= |timeline| && frames == timeline[..|frames|]
        invariant !delayOk ==> frames == []
        decreases x + textWidth
      {
        if !windowVisible {
          break;
        }
        FrameCountExact(width, textWidth, |frames|);
        BlinkCadence(b0, |frames|);
        blinkCounter := blinkCounter + 1;
        if blinkCounter >= BlinkPeriod {
          blinkState := !blinkState;
          blinkCounter := 0;
        }
        frames := frames + [Frame(x, blinkState, VisibleMask(msg.text, msg.blinkMode, blinkState))];
        x := x - Step;
        if !delayOk {
          assert frames == timeline[..1];
          return;
        }
      }
      FrameCountExact(width, textWidth, |frames|);
    }

    /** `update_marquee`: scroll the current message across the screen, then
        clear the current message and close the window. `textWidth` is the
        rendered text's width; `renderOk` is false when rendering raises
        before the first frame, in which case only the cleanup runs.
        For a speed other than the inf/nan spellings, `delayInRange` says
        whether `int(speed * 1000)` and `pygame.time.delay` both return. The
        delay step raises after the first frame for an inf/nan spelling or
        when `delayInRange` is false, and the scroll then stops after that
        frame. */
    method UpdateMarquee(textWidth: nat, renderOk: bool, delayInRange: bool) returns (frames: seq<Frame>)
      requires Valid()
      modifies this`current, this`messageVisible, this`windowVisible, this`screen, this`blinkState
      ensures Valid()
      ensures blinkState == BlinkAfter(old(blinkState), |frames|)
      ensures old(current).None? || old(screen).None? ==>
        && frames == [] && current == old(current) && messageVisible == old(messageVisible)
        && windowVisible == old(windowVisible) && screen == old(screen)
      ensures old(current).Some? && old(screen).Some? ==>
        && Idle()
        && frames == if renderOk
                     then ScrollFrames(old(screen).value, textWidth, old(current).value, old(blinkState),
                                       DelayOk(old(current).value.speed, delayInRange))
                     else []
    {
      frames := [];
      if current.Some? && screen.Some? {
        var msg := current.value;
        if renderOk {
          frames := ScrollMessage(msg, screen.value, textWidth, DelayOk(msg.speed, delayInRange));
        }
        current := None;
        messageVisible := false;
        DestroyWindow();
      }
    }

    /** One pass of the main loop: `check_queue`, then `update_marquee` when
        the window and a message are visible. From an idle state it always
        returns to idle, so a message is either scrolled to the end or
        dropped, and at most one is ever current. */
    method Tick(screenWidth: nat, displayOk: bool, textWidth: nat, renderOk: bool, delayInRange: bool)
      returns (popped: Option<Message>, audio: Option<string>, frames: seq<Frame>)
      requires Valid()
      modifies queue, this`windowVisible, this`screen, this`current, this`messageVisible, this`blinkState
      ensures Valid()
      ensures (popped, queue.State()) == PopMin(old(queue.State()))
      ensures audio == if popped.Some? && popped.value.wavPath != "" then Some(popped.value.wavPath) else None
      ensures blinkState == BlinkAfter(old(blinkState), |frames|)
      ensures old(Idle()) ==> Idle()
      ensures old(Idle()) && popped.Some? && displayOk && renderOk ==>
        frames == ScrollFrames(screenWidth, textWidth, popped.value, old(blinkState), DelayOk(popped.value.speed, delayInRange))
      ensures old(Idle()) && !(popped.Some? && displayOk && renderOk) ==> frames == []
    {
      popped, audio := CheckQueue(screenWidth, displayOk);
      frames := [];
      if windowVisible && messageVisible {
        frames := UpdateMarquee(textWidth, renderOk, delayInRange);
      }
    }
  }
}
