# Marquee notification engine — a Dafny model

This project models the notification intake and display-scheduling core of the
X11 marquee notifier (`marquee_msg_sys.py`). Producers send pipe-delimited
records:

    priority|blinkMode|text|color|bgColor|speed|audioPath|speechFlag

The engine decodes each record and drops texts the user has asked to ignore.
It logs every record it accepts into the message history and queues it by
priority, after a two-second deduplication of identical `text_priority` keys.
A single display loop then pops one message at a time and scrolls it across
the top of the screen, blinking parts of it according to its blink mode.

Modules, one file each:

- `text.dfy` (`Text`): Python's `strip()` (with `str.isspace` whitespace),
  `lower()`, `int()`, `str(int)` and the acceptance test of `float()`.
- `wire.dfy` (`Wire`): `split("|")` and join, the record decoder
  (first eight fields, blank background becomes `black`), and the HTTP
  JSON-to-wire bridge.
- `glyphs.dfy` (`Glyphs`): grouping a character with a following U+FE0F,
  `is_emoji`'s code-point class, and which glyphs each blink mode draws.
- `queue.dfy` (`Queue`): `Message`, its priority-only ordering, the
  deduplication key, the `MessageQueue` class and its pure specification.
- `intake.dfy` (`Intake`): the history log and suppression table as values,
  `parse_and_queue_message`, `ignore_message` and `clear_history` as
  functions of that state, and the lemmas relating them.
- `scroll.dfy` (`Scroll`): the integer scroll timeline and the blink cadence.
- `engine.dfy` (`Marquee`): the `Engine` class that holds all the former
  globals. Its methods perform intake, the sweep, administration and the
  display state machine in place. These methods are proved to leave the
  state that a function above specifies:
  - `SweepIgnored` leaves `Intake.Unexpired`.
  - `ParseAndQueueMessage` leaves `Intake.ParseAndQueue`.
  - `IgnoreMessage` leaves `Intake.Ignore`.
  - `ClearHistory` leaves `Intake.ClearHistory`.
  - `ScrollMessage` draws exactly `Marquee.ScrollFrames`.
  - In `queue.dfy`, `MessageQueue.AddMessage` gives `Queue.Admit` and
    `MessageQueue.GetMessage` gives `Queue.PopMin`.

  `CheckQueue` and `Tick` match `Queue.PopMin` for the queue only; their
  display flags and frames are stated directly in their contracts. The same
  holds for `UpdateMarquee`, through `ScrollFrames`. `CreateWindow`,
  `DestroyWindow` and `ShowMarquee` state their flags directly.

Time is an explicit `now: real` (seconds). The fresh UUID is a parameter
`id`. Pygame supplies a few facts, all passed in as parameters: the screen
width, the rendered text width, whether opening the window or rendering
raised, and whether the frame delay `int(speed * 1000)` and
`pygame.time.delay` return for a speed other than the inf/nan spellings.
Whether the log line of `ignore_message` raises is a parameter too.

The model follows the code as written, including these points:

- Deduplicated messages still get a history entry: the entry is appended
  before `add_message` runs.
- A record whose blink mode or speed does not parse also keeps its entry.
  Only a bad priority fails before the append.
- Records with more than eight fields are accepted; the extra fields are
  ignored.
- Equal priorities are not served first-in first-out. `Message.__lt__`
  compares priority only and the heap is not stable, so the model promises
  only that a message of least priority is popped.
- The HTTP bridge drops the JSON `audioPath` and always sends an empty
  audio field.

## Model

| member | source | states |
|---|---|---|
| `Text.Strip` | marquee_msg_sys.py:605 | the result is the input with exactly its leading and trailing whitespace removed, and neither starts nor ends with whitespace |
| `Text.StripIdempotent` | marquee_msg_sys.py:730 | stripping an already stripped text changes nothing, as `ignore_message` does to a history text |
| `Text.BlankIffAllSpace` | marquee_msg_sys.py:583 | `not bg_color.strip()` holds exactly when every character of the background is whitespace |
| `Text.Lower` | marquee_msg_sys.py:587 | every ASCII capital becomes its small letter, every other character is kept, and no capital remains |
| `Text.LowerIdempotent` | marquee_msg_sys.py:587 | lower-casing an already lower-cased text changes nothing |
| `Text.LowerEqualIff` | marquee_msg_sys.py:587 | two texts lower-case to the same text exactly when they agree position by position up to the case of ASCII letters |
| `Text.ParseInt` | marquee_msg_sys.py:606 | `int()` succeeds exactly on an optionally signed digit run (underscores only between digits) surrounded by whitespace other than U+001C to U+001F, with no limit on the number of digits |
| `Text.SeparatorPaddingRejected` | marquee_msg_sys.py:606 | a trailing U+001C to U+001F, which `strip()` would remove, makes both `int()` and `float()` raise |
| `Text.ParseIntToString` | marquee_msg_sys.py:293 | `int(str(n)) == n` for every integer |
| `Text.IntToStringInjective` | marquee_msg_sys.py:293 | different priorities give different `str(priority)` |
| `Text.IntegerLiteralAccepted` | marquee_msg_sys.py:619 | `float()` accepts a plain digit run, and it is not an inf/nan spelling |
| `Text.PointLiteralAccepted` | marquee_msg_sys.py:619 | `float()` accepts two digit runs around a point, and the result is not an inf/nan spelling |
| `Text.DefaultSpeedAccepted` | marquee_msg_sys.py:701 | the bridge's default speed `1.0` passes `float()` and is not an inf/nan spelling |
| `Text.IsNonFiniteLiteral` | marquee_msg_sys.py:619 | the inf/nan spellings are never decimal literals, so `float()` accepts them only as infinities and NaNs |
| `Text.LetterStartNotDecimal` | marquee_msg_sys.py:619 | a literal that starts with neither a digit nor a point is not a decimal literal |
| `Text.BlankIsNotFloatLiteral` | marquee_msg_sys.py:619 | `float()` raises on a blank speed |
| `Wire.Split` | marquee_msg_sys.py:575 | `split("|")` yields at least one piece, no piece contains the separator, and joining the pieces gives back the input |
| `Wire.SplitAppend` | marquee_msg_sys.py:575 | splitting `a|b` gives the pieces of `a` followed by the pieces of `b` |
| `Wire.SplitJoin` | marquee_msg_sys.py:575 | split inverts join on separator-free fields |
| `Wire.Decode` | marquee_msg_sys.py:575-584 | a record is rejected exactly when it has fewer than eight pieces; otherwise the fields are the first eight pieces, with a blank background replaced by `black` |
| `Wire.DecodeIgnoresExtraFields` | marquee_msg_sys.py:576-580 | appending further fields to a record of eight or more leaves the decoded record unchanged |
| `Wire.DecodeFirstEight` | marquee_msg_sys.py:580 | a record decodes like the record made of its first eight pieces |
| `Wire.BridgeIsJoin` | marquee_msg_sys.py:697-701 | the bridge string is the eight fields (six members or their defaults, then two empty) joined with the separator |
| `Wire.BridgeRoundTrip` | marquee_msg_sys.py:331-335 | a bridge string whose members contain no separator splits back into exactly eight fields, with the text, priority, blink mode and speed intact and empty audio and speech fields |
| `Wire.BridgeSplitsText` | marquee_msg_sys.py:697-701 | when no other member contains the separator, the bridge string splits into the priority and blink mode, the pieces of the text, then the other five fields |
| `Wire.SeparatorSplits` | marquee_msg_sys.py:575 | a text holding the separator splits into several pieces, the first of them not the whole text |
| `Wire.BridgePipeInTextCorrupts` | marquee_msg_sys.py:699 | a separator inside the text yields more than eight pieces, and the decoded text differs from the text sent |
| `Glyphs.GlyphsSound` | marquee_msg_sys.py:198-209 | the glyphs concatenate back to the text; each is one character or a character followed by U+FE0F; the pairing is greedy |
| `Glyphs.GlyphsUnique` | marquee_msg_sys.py:447-458 | any cut of the text into well-formed, greedily paired glyphs equals the grouping |
| `Glyphs.GroupGlyphs` | marquee_msg_sys.py:447-458 | the `while i < len(text)` loop produces exactly the grouping |
| `Glyphs.InEmojiClass` | marquee_msg_sys.py:142-176 | the class lies between U+203C and U+1FAFF and contains U+FE0F |
| `Glyphs.IsEmoji` | marquee_msg_sys.py:177-184 | a single character is emoji exactly when it is in the class; an all-ASCII glyph never is; a character followed by U+FE0F always is |
| `Glyphs.PairedGlyphIsEmoji` | marquee_msg_sys.py:177-184 | every two-character glyph of the grouping counts as emoji |
| `Glyphs.GlyphVisible` | marquee_msg_sys.py:436-490 | with the toggle on a glyph is drawn; modes outside 1..3 draw it; mode 3 draws it exactly with the toggle; with the toggle off, mode 1 hides only non-emoji glyphs and mode 2 only emoji glyphs |
| `Glyphs.VisibleMask` | marquee_msg_sys.py:436-497 | with the toggle on every glyph is drawn; modes 0 and out-of-range modes draw all; mode 3 draws all or none with the toggle; mode 1 always draws emoji and blinks the rest; mode 2 is the inverse |
| `Glyphs.PartialModesComplement` | marquee_msg_sys.py:465-468 | with the toggle off, each glyph is drawn in exactly one of modes 1 and 2 |
| `Queue.BeforeIsStrictWeakOrder` | marquee_msg_sys.py:276-277 | `__lt__` is irreflexive, asymmetric and transitive, and two messages are unordered exactly when their priorities are equal |
| `Queue.DedupKeyInjective` | marquee_msg_sys.py:293 | the key `f"{text}_{priority}"` determines both the text and the priority |
| `Queue.Admit` | marquee_msg_sys.py:291-297 | a message is queued exactly when its key is not live; it is then added once, its key records the admission time and every other key keeps its time; otherwise nothing changes |
| `Queue.AdmitTwiceWithinWindow` | marquee_msg_sys.py:294-297 | after a message is queued, the same text and priority within two seconds is dropped and the queue stays as it was |
| `Queue.AdmitAfterWindow` | marquee_msg_sys.py:297 | once two seconds have passed the same key is admitted again |
| `Queue.MinIndex` | marquee_msg_sys.py:276-277 | the chosen position holds a priority no greater than any other queued message |
| `Queue.PopMin` | marquee_msg_sys.py:299-307 | an empty queue yields None and is unchanged; otherwise one queued message of least priority is removed, all others remain, and the recent keys are untouched |
| `Queue.PrependLeast` | marquee_msg_sys.py:299-304 | a message no later than any of an ascending sequence keeps it ascending when put in front |
| `Queue.DrainSorted` | marquee_msg_sys.py:296-304 | popping with `PopMin` until empty yields every queued message once, in nondecreasing priority, whichever least message each pop takes |
| `Queue.MessageQueue.constructor` | marquee_msg_sys.py:285-289 | a new queue is empty with no recent keys |
| `Queue.MessageQueue.AddMessage` | marquee_msg_sys.py:291-297 | the queue's new state and result are those of `Admit` |
| `Queue.MessageQueue.GetMessage` | marquee_msg_sys.py:299-307 | the result and new state are those of `PopMin` |
| `Intake.NormalizedKey` | marquee_msg_sys.py:587 | the key of `text.strip().lower()` has no ASCII capital and no whitespace at either end |
| `Intake.SameKeyIff` | marquee_msg_sys.py:730 | two texts share a key exactly when, stripped, they agree up to the case of ASCII letters |
| `Intake.NormalizedKeyOfStripped` | marquee_msg_sys.py:730 | the key of a stripped text is the key of the text, so a history entry's key matches its submission's |
| `Intake.Unexpired` | marquee_msg_sys.py:591-593 | the sweep keeps exactly the entries whose expiry is not before now, with their expiry |
| `Intake.UnexpiredLater` | marquee_msg_sys.py:357-364 | a later sweep, whether by the cleanup thread or by intake, subsumes an earlier one |
| `Intake.ParseAndQueue` | marquee_msg_sys.py:572-631 | short records are Malformed and change nothing; otherwise the table is swept. A record is Suppressed exactly when its key is live; BadPriority exactly when, unsuppressed, its priority does not parse; BadBlinkOrSpeed exactly when the priority parses but the blink mode or speed does not. These three add nothing to the queue, and the first two no history. All others append one entry with the stripped text and parsed priority, and leave the queue `Admit` gives for the decoded message; Queued exactly when `Admit` queues it, one message with the entry's id appended |
| `Intake.SuppressedIff` | marquee_msg_sys.py:586-598 | a record is suppressed exactly when it decodes and its normalised text has an expiry not before now |
| `Intake.ResubmitWithinWindow` | marquee_msg_sys.py:611-626 | a second record with the same text and priority, sent within two seconds of a queued one and with a valid blink mode and speed, is deduplicated, leaves the queue as it was, and still adds a history entry |
| `Intake.NewestFirst` | marquee_msg_sys.py:713 | the history read has the same length with the entries in reverse order |
| `Intake.FirstWithId` | marquee_msg_sys.py:728-729 | the result is the first position carrying the identifier, or the length when there is none |
| `Intake.RemoveId` | marquee_msg_sys.py:737 | the filtered history holds exactly the entries without the identifier |
| `Intake.RemoveIdAppend` | marquee_msg_sys.py:737 | filtering distributes over concatenation, so the remaining entries keep their order |
| `Intake.RemoveIdAbsent` | marquee_msg_sys.py:737 | filtering by an identifier no entry carries returns the history unchanged |
| `Intake.Ignore` | marquee_msg_sys.py:721-739 | the history becomes `RemoveId` of it, so the other entries keep their order, except after a match whose expiry does not fit a float or whose log line raises, which leave it as it was; with no matching entry, or an expiry that does not fit a float, the table is unchanged; otherwise the first match's normalised text is added or set to expire `duration` minutes after now and every other key keeps its expiry; the queue is untouched |
| `Intake.IgnoreOverflowChangesNothing` | marquee_msg_sys.py:729-731 | when an entry matches but `int(duration) * 60` is too large for a float, nothing changes: the request raises before the table is written and before the history is filtered |
| `Intake.ReasonableDurationFits` | marquee_msg_sys.py:725-731 | the default five minutes, and any duration of up to a thousand years either way, gives an expiry that fits a float |
| `Intake.IgnoreUnknownId` | marquee_msg_sys.py:727-737 | ignoring an unknown identifier changes nothing |
| `Intake.IgnoreSuppresses` | marquee_msg_sys.py:731-732 | after ignoring with a duration whose expiry fits a float, a record with the same normalised text is suppressed until the expiry, the expiry instant included |
| `Intake.IgnoreExpires` | marquee_msg_sys.py:591-598 | for a duration whose expiry fits a float, after the expiry the ignored text is no longer suppressed |
| `Intake.AcceptIgnoreResubmit` | marquee_msg_sys.py:601-611 | a record logged under a fresh id, then ignored by that id for a duration whose expiry fits a float, is suppressed when sent again before the expiry |
| `Intake.ClearHistory` | marquee_msg_sys.py:716-718 | the history becomes empty; the suppression table and the queue are untouched |
| `Intake.ClearHistoryKeepsSuppression` | marquee_msg_sys.py:717 | clearing the history neither lifts nor adds a suppression |
| `Scroll.FrameCountExact` | marquee_msg_sys.py:538 | frame `f` is drawn exactly when `width - 5*f > -text_width`, so the count is the ceiling of (width + text width) / 5 |
| `Scroll.Timeline` | marquee_msg_sys.py:522-561 | the timeline has exactly that many frames |
| `Scroll.TimelineEndsOffscreen` | marquee_msg_sys.py:537-538 | no frame has the text wholly past the left edge, after the last one it is, and nothing is drawn when there is nothing to scroll |
| `Scroll.BlinkCadence` | marquee_msg_sys.py:542-546 | the toggle changes between consecutive frames exactly on every thirtieth frame |
| `Marquee.Engine.constructor` | marquee_msg_sys.py:347-353 | the engine starts idle with empty history, table and queue and the blink toggle on |
| `Marquee.Engine.SweepIgnored` | marquee_msg_sys.py:591-593 | deleting key by key leaves exactly the unexpired suppressions |
| `Marquee.Engine.ParseAndQueueMessage` | marquee_msg_sys.py:572-631 | the new history, table and queue, and the outcome, are those of `ParseAndQueue` |
| `Marquee.Engine.FindEntry` | marquee_msg_sys.py:728-734 | the search loop stops at the first entry with the identifier, or runs to the end of the history when there is none |
| `Marquee.Engine.IgnoreMessage` | marquee_msg_sys.py:721-739 | the search loop, the overflow exit, the table write and the filter leave the state `Ignore` specifies, with a duration of five minutes when the request names none |
| `Marquee.Engine.ClearHistory` | marquee_msg_sys.py:716-718 | the state becomes that of `ClearHistory` |
| `Marquee.Engine.CreateWindow` | marquee_msg_sys.py:376-392 | a window is opened, and True returned, exactly when none is visible and opening does not raise |
| `Marquee.Engine.DestroyWindow` | marquee_msg_sys.py:394-400 | afterwards no window is visible and there is no screen |
| `Marquee.Engine.ShowMarquee` | marquee_msg_sys.py:420-424 | the message becomes current and visible exactly when a window could be created; otherwise the display state is unchanged |
| `Marquee.Engine.CheckQueue` | marquee_msg_sys.py:671-677 | pops as `PopMin`; the popped message is shown only if a new window opens, else dropped; audio is requested for a non-empty `wav_path` regardless |
| `Marquee.ScrollFrames` | marquee_msg_sys.py:538-564 | the frames drawn are a prefix of the timeline: all of it when every frame delay returns, only its first frame when the delay raises |
| `Marquee.Engine.ScrollMessage` | marquee_msg_sys.py:536-562 | the loop draws exactly `ScrollFrames`, and the blink toggle ends flipped once per thirty frames drawn |
| `Marquee.DelayOk` | marquee_msg_sys.py:562 | the frame delay never returns for an inf/nan spelling, and returns for another speed only when `int(speed * 1000)` and pygame accept it |
| `Marquee.NonFiniteSpeedShowsOneFrame` | marquee_msg_sys.py:562-564 | a message whose speed is an inf/nan spelling is drawn for at most one frame |
| `Marquee.Engine.UpdateMarquee` | marquee_msg_sys.py:499-570 | with a current message and a screen, the loop draws exactly `ScrollFrames`: the whole timeline, or only its first frame when the speed is an inf/nan spelling or the delay step raises for another reason (`1e999` overflowing, pygame refusing the delay). The blink toggle carries over; current message, visibility and window end cleared. Otherwise nothing happens |
| `Marquee.Engine.Tick` | marquee_msg_sys.py:789-799 | from idle, one pass pops one message, scrolls it if it could be shown (to the end, or one frame when its delay raises), and returns to idle |

## Left out

- Pygame rendering: fonts, surfaces, blitting, emoji scaling and the window
  resize in `update_marquee` are library calls. The screen width, the text
  width and whether a pygame call raises are parameters.
- `Marquee.Engine.UpdateMarquee`: a rendering exception in the middle of
  the scroll loop is not modelled. Modelled are a rendering failure before
  the first frame (`renderOk`), and a raising frame delay after the first
  frame. The delay raises for an inf/nan spelling. For any other speed the
  parameter `delayInRange` says whether it raises: the model does not
  compute when `float(speed) * 1000` overflows (`1e999`, `1e306`) or which
  delays pygame refuses. The `finally` cleanup runs in every case.
- `Marquee.Engine.Tick`: the pygame event poll (a QUIT event ends the
  process) and the `pygame.error` handler of the main loop are not modelled.
- Audio playback (`play_audio`): it runs a detached thread over
  `pygame.mixer` and first checks that the file exists. The model records
  only that playback is requested, exactly when `wav_path` is non-empty.
- Sockets and HTTP: `select`, `accept`/`recv`, the listener loops, Flask
  routes and static-file serving are I/O. The transport's `.decode().strip()`
  of received bytes is not modelled either; intake starts from the decoded
  string.
- Threads, locks and `threading.Timer`: the model is sequential. A
  deduplication key is live while `now` is less than its admission time
  plus 2 s. The 60-second cleanup thread runs the same sweep as intake.
- Floating point: `float(speed)` is only checked for acceptance, and the
  speed is kept as text. Of the frame delay `int(speed*1000)`, only whether
  it raises is modelled; its length in milliseconds is not.
  Timestamps are exact reals. The history's `strftime` timestamp holds the
  intake time instead.
- `uuid4()`: the fresh identifier is a parameter.
- `Message.has_emoji`: its result is never used by the rendering code.
- `add_to_message_history`: the intake path does not call it.
- `argparse`, startup, socket binding and shutdown.
- `static/js/main.js`: browser UI only.
- `Text.Lower`: only ASCII letters are lowered. Python lowers all of
  Unicode.
- `Text.ParseInt`: only ASCII digits are accepted. Python also accepts other
  Unicode decimal digits. The same holds for the float lemmas
  (`Text.IntegerLiteralAccepted` and the others): `Text.IsFloatLiteral`
  accepts only ASCII digits.
- `Text.ParseInt`: the model has no limit on the number of digits.
  CPython 3.11 and later, and the security releases 3.7.14, 3.8.14, 3.9.14
  and 3.10.7, make `int()` raise on more than 4300 digits by default, and
  `str()` likewise on such an integer. The limit can be configured per
  interpreter. With it, a priority or blink mode of more than 4300 digits
  ends as BadPriority or BadBlinkOrSpeed, where the model logs or queues
  the record.
- `Text.IsSpace`: Python's whitespace set, not derived from the Unicode
  database. `Text.IsNumericSpace`, the set `int()` and `float()` skip, is
  the same set without U+001C to U+001F.
- `Marquee.Engine.IgnoreMessage`: the duration is taken as an integer
  already, or is absent and defaults to five minutes. Applying `int()` to
  the JSON value is not modelled.
- `Intake.Ignore`: the overflow of `int(duration) * 60` when it is added
  to the float timestamp is computed exactly (`ExpiryFitsFloat`, a
  magnitude below 2^1024 - 2^970); it raises before anything is written.
  Whether `datetime.fromtimestamp(expiry)` in the log line raises is the
  parameter `logOk`. The model does not compute that bound, an expiry
  outside the years 1 to 9999 in local time, e.g. a duration of
  5000000000 minutes. When it raises, the suppression is already written
  and the history is left unfiltered. The HTTP error response of either
  raise is not modelled.
- `Queue.PopMin`: the model pops the earliest queued message of least
  priority. The contract promises only some message of least priority,
  because the heap's tie order is not stable.
