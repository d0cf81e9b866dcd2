/** The pipe-delimited wire record
      priority|blinkMode|text|color|bgColor|speed|audioPath|speechFlag
    as `parse_and_queue_message` splits it, and the JSON-to-wire bridge of the
    HTTP endpoint that builds it. */
module Wire {

  import opened Wrappers
  import opened Text

  const Sep: char := '|'

  /** `Sep.join(fields)`. */
  function Join(fields: seq<string>): (s: string)
    requires |fields| >= 1
  {
    if |fields| == 1 then fields[0] else fields[0] + ([Sep] + Join(fields[1..]))
  }

  /** Python's `s.split("|")`: the maximal separator-free pieces of `s`, in
      order, which joined back with the separator give `s`. There is always at
      least one piece. */
  function Split(s: string): (r: seq<string>)
    ensures |r| >= 1
    ensures forall k :: 0 <= k < |r| ==> Sep !in r[k]
    ensures Join(r) == s
    decreases |s|
  {
    if |s| == 0 then [""]
    else
      var rest := Split(s[1..]);
      if s[0] == Sep then
        assert ([""] + rest)[1..] == rest;
        [""] + rest
      else
        var r := [[s[0]] + rest[0]] + rest[1..];
        assert |rest| > 1 ==> r[1..] == rest[1..];
        r
  }

  /** Splitting at one separator splits each side independently. */
  lemma {:induction false} SplitAppend(a: string, b: string)
    ensures Split(a + ([Sep] + b)) == Split(a) + Split(b)
    decreases |a|
  {
    var s := a + ([Sep] + b);
    if |a| == 0 {
      assert s[1..] == b;
    } else {
      assert s[1..] == a[1..] + ([Sep] + b);
      SplitAppend(a[1..], b);
    }
  }

  /** A piece without separator splits into itself. */
  lemma {:induction false} SplitNoSep(a: string)
    requires Sep !in a
    ensures Split(a) == [a]
    decreases |a|
  {
    if |a| > 0 {
      SplitNoSep(a[1..]);
      assert [a[0]] + a[1..] == a;
    }
  }

  /** `split` inverts `join` on separator-free fields. */
  lemma {:induction false} SplitJoin(fields: seq<string>)
    requires |fields| >= 1
    requires forall k :: 0 <= k < |fields| ==> Sep !in fields[k]
    ensures Split(Join(fields)) == fields
  {
    SplitNoSep(fields[0]);
    if |fields| > 1 {
      SplitAppend(fields[0], Join(fields[1..]));
      SplitJoin(fields[1..]);
    }
  }

  /** The eight fields of a record once decoded. The numeric fields stay text
      here; `int()`/`float()` are applied later, at the point where the intake
      applies them. */
  datatype WireRecord = WireRecord(
    priority: string,
    blinkMode: string,
    text: string,
    color: string,
    bgColor: string,
    speed: string,
    wavPath: string,
    speechFlag: string)

  /** The default background used when the record's bgColor is blank. */
  const DefaultBackground: string := "black"

  /** The field step of `parse_and_queue_message`: fewer than eight pieces is
      rejected; otherwise the first eight are taken, any further ones ignored,
      and a blank background becomes "black". */
  function Decode(data: string): (r: Option<WireRecord>)
    ensures r.None? <==> |Split(data)| < 8
    ensures r.Some? ==>
      var f := Split(data);
      && r.value.text == f[2] && r.value.priority == f[0] && r.value.blinkMode == f[1]
      && r.value.color == f[3] && r.value.speed == f[5] && r.value.wavPath == f[6]
      && r.value.speechFlag == f[7]
      && r.value.bgColor == (if IsBlank(f[4]) then DefaultBackground else f[4])
  {
    var parts := Split(data);
    if |parts| < 8 then None
    else
      var bg := if IsBlank(parts[4]) then DefaultBackground else parts[4];
      Some(WireRecord(parts[0], parts[1], parts[2], parts[3], bg, parts[5], parts[6], parts[7]))
  }

  /** Pieces past the eighth do not influence the decoded record. */
  lemma DecodeIgnoresExtraFields(data: string, extra: string)
    requires |Split(data)| >= 8
    ensures Decode(data + ([Sep] + extra)) == Decode(data)
  {
    SplitAppend(data, extra);
  }

  /** A record with more than eight pieces decodes like the record made of
      its first eight. */
  lemma DecodeFirstEight(data: string)
    requires |Split(data)| >= 8
    ensures Decode(Join(Split(data)[..8])) == Decode(data)
  {
    SplitJoin(Split(data)[..8]);
  }

  /** The JSON body of `POST /api/send-message`; each present member is held
      as the text Python's f-string formatting gives it. The body's
      `audioPath` member is not read by the bridge. */
  datatype JsonBody = JsonBody(
    priority: Option<string>,
    blinkMode: Option<string>,
    text: Option<string>,
    color: Option<string>,
    bgColor: Option<string>,
    speed: Option<string>)

  /** The wire string the HTTP bridge builds: the six members, or their
      defaults, then two empty fields for audio path and speech flag. */
  function Bridge(body: JsonBody): (s: string)
  {
    body.priority.GetOr("1") + ("|"
      + (body.blinkMode.GetOr("0") + ("|"
      + (body.text.GetOr("") + ("|"
      + (body.color.GetOr("#ffffff") + ("|" + (body.bgColor.GetOr("#000000") + ("|"
      + (body.speed.GetOr("1.0") + "||"))))))))))
  }

  /** The eight fields the bridge lays out, in wire order. */
  function BridgeFields(body: JsonBody): seq<string>
  {
    [body.priority.GetOr("1"), body.blinkMode.GetOr("0"), body.text.GetOr(""),
     body.color.GetOr("#ffffff"), body.bgColor.GetOr("#000000"), body.speed.GetOr("1.0"), "", ""]
  }

  /** The bridge string is the eight fields joined with the separator. */
  lemma BridgeIsJoin(body: JsonBody)
    ensures Bridge(body) == Join(BridgeFields(body))
  {
    var f := BridgeFields(body);
    assert f[1..][1..] == f[2..] && f[2..][1..] == f[3..] && f[3..][1..] == f[4..];
    assert f[4..][1..] == f[5..] && f[5..][1..] == f[6..] && f[6..][1..] == f[7..];
    assert Join(f[6..]) == "|";
    assert [Sep] + "|" == "||";
    assert Join(f[5..]) == f[5] + "||";
    assert Join(f[4..]) == f[4] + ("|" + (f[5] + "||"));
    assert Join(f[3..]) == f[3] + ("|" + Join(f[4..]));
    assert Join(f[2..]) == f[2] + ("|" + Join(f[3..]));
    assert Join(f[1..]) == f[1] + ("|" + Join(f[2..]));
    assert Join(f) == f[0] + ("|" + Join(f[1..]));
  }

  /** No member of the body, once defaulted, contains the separator. */
  predicate SeparatorFree(body: JsonBody)
  {
    forall k :: 0 <= k < 8 ==> Sep !in BridgeFields(body)[k]
  }

  /** The bridge string splits back into exactly its eight fields, the text
      intact, and decodes to them. */
  lemma {:induction false} BridgeRoundTrip(body: JsonBody)
    requires SeparatorFree(body)
    ensures Split(Bridge(body)) == BridgeFields(body)
    ensures |Split(Bridge(body))| == 8
    ensures Decode(Bridge(body)).Some?
    ensures var r := Decode(Bridge(body)).value;
      && r.text == body.text.GetOr("")
      && r.priority == body.priority.GetOr("1")
      && r.blinkMode == body.blinkMode.GetOr("0")
      && r.speed == body.speed.GetOr("1.0")
      && r.wavPath == "" && r.speechFlag == ""
  {
    BridgeIsJoin(body);
    SplitJoin(BridgeFields(body));
  }

  /** The bridge string splits into the priority and blink-mode fields, the
      pieces of the text, then the remaining five fields. */
  lemma BridgeSplitsText(body: JsonBody)
    requires forall k :: 0 <= k < 8 && k != 2 ==> Sep !in BridgeFields(body)[k]
    ensures var f := BridgeFields(body);
      Split(Bridge(body)) == [f[0], f[1]] + Split(f[2]) + f[3..]
  {
    var f := BridgeFields(body);
    var t := f[2];
    BridgeIsJoin(body);
    var tail := Join(f[3..]);
    assert f[1..][1..] == f[2..] && f[2..][1..] == f[3..];
    assert Join(f[2..]) == t + ([Sep] + tail);
    assert Join(f[1..]) == f[1] + ([Sep] + Join(f[2..]));
    SplitAppend(f[0], Join(f[1..]));
    SplitAppend(f[1], Join(f[2..]));
    SplitAppend(t, tail);
    SplitNoSep(f[0]);
    SplitNoSep(f[1]);
    SplitJoin(f[3..]);
  }

  /** Text holding a separator splits into several pieces, the first of which
      is shorter than the text. */
  lemma SeparatorSplits(t: string)
    requires Sep in t
    ensures |Split(t)| > 1 && Split(t)[0] != t
  {
    var pieces := Split(t);
    assert Sep !in pieces[0];
    assert Join(pieces) == pieces[0] + ([Sep] + Join(pieces[1..]));
  }

  /** The protocol has no escaping: a separator inside the text yields more
      than eight pieces and the decoded text is no longer the text sent. */
  lemma {:induction false} BridgePipeInTextCorrupts(body: JsonBody)
    requires forall k :: 0 <= k < 8 && k != 2 ==> Sep !in BridgeFields(body)[k]
    requires Sep in body.text.GetOr("")
    ensures |Split(Bridge(body))| > 8
    ensures Decode(Bridge(body)).value.text != body.text.GetOr("")
  {
    var f := BridgeFields(body);
    BridgeSplitsText(body);
    SeparatorSplits(f[2]);
    assert Split(Bridge(body))[2] == Split(f[2])[0];
  }
}
