/**
 Normalisation of a Telegram Desktop chat export: every raw message record is
 classified into one of fourteen content categories, its characters and
 words are counted, its sender is registered in a participant table, and the
 earliest and latest timestamps are tracked in a single pass.
 */
module ProcessData {
  import opened Wrappers
  import opened JsString
  import opened Decimal

  /** The closed set of content categories (the source's `MessageType`). */
  datatype MessageType =
    | Text | Image | Video | Sticker | Gif | File | Link | Location
    | PhoneCall | PinMessage | Contact | VideoMessage | VoiceMessage | Unknown

  /** One element of `text_entities`: a fragment of the text and its kind
      ("plain", "link", "bold", ...). */
  datatype TextEntity = TextEntity(kind: string, text: string)

  /** The `text` field of a record: absent, a plain string, or the array of
      fragments the exporter writes for formatted text. */
  datatype TextField = NoText | PlainText(s: string) | RichText(fragments: seq<TextEntity>)

  /** A record of the export's `messages` array, with the fields the parser reads.
      `contactInformation` and `locationInformation` say whether that field is
      present with a truthy value. */
  datatype RawMessage = RawMessage(
    date: string,
    dateUnixtime: string,
    from: string,
    fromId: string,
    text: TextField,
    textEntities: Option<seq<TextEntity>>,
    action: Option<string>,
    locationInformation: bool,
    contactInformation: bool,
    photo: Option<string>,
    file: Option<string>,
    mediaType: Option<string>,
    mimeType: Option<string>)

  datatype Participant = Participant(id: string, name: string)

  /** One normalised message; `from` is the sender's id. */
  datatype ParsedMessage = ParsedMessage(
    date: string,
    dateUnixtime: string,
    from: string,
    kind: MessageType,
    characterCount: nat,
    wordCount: nat)

  datatype ParseResult = ParseResult(
    participants: seq<Participant>,
    messages: seq<ParsedMessage>,
    totalSpanMs: int,
    firstMessageTimestamp: int,
    lastMessageTimestamp: int)

  /** `Number.MAX_SAFE_INTEGER`, the initial value of the running minimum. */
  const MaxSafeInteger: int := 9007199254740991

  function Min(a: int, b: int): int { if a <= b then a else b }

  function Max(a: int, b: int): int { if a >= b then a else b }

  /** JavaScript truthiness of an optional string field. */
  predicate Truthy(field: Option<string>)
  {
    field.Some? && field.value != ""
  }

  /** JavaScript truthiness of the `text` field: an array is always truthy. */
  predicate TextTruthy(text: TextField)
  {
    match text
    case NoText => false
    case PlainText(s) => s != ""
    case RichText(_) => true
  }

  predicate HasLinkEntity(entities: Option<seq<TextEntity>>)
  {
    entities.Some? && exists k :: 0 <= k < |entities.value| && entities.value[k].kind == "link"
  }

  /** The classifier: an ordered chain of guards, the first that holds decides. */
  function DetermineMessageType(m: RawMessage): (r: MessageType)
    ensures r == Unknown || exists i :: 0 <= i < RuleCount && RuleMatches(m, i) && RuleResult(i) == r
  {
    if m.mediaType == Some("sticker") then assert RuleMatches(m, 0); Sticker
    else if m.mediaType == Some("animation") then assert RuleMatches(m, 1); Gif
    else if m.mediaType == Some("video_message") then assert RuleMatches(m, 2); VideoMessage
    else if m.mediaType == Some("voice_message") then assert RuleMatches(m, 3); VoiceMessage
    else if m.action == Some("phone_call") then assert RuleMatches(m, 4); PhoneCall
    else if m.action == Some("pin_message") then assert RuleMatches(m, 5); PinMessage
    else if m.contactInformation then assert RuleMatches(m, 6); Contact
    else if m.locationInformation then assert RuleMatches(m, 7); Location
    else if m.photo.Some? && Includes(m.photo.value, "not included") then assert RuleMatches(m, 8); Image
    else if m.mimeType.Some? && StartsWith(m.mimeType.value, "image/") then assert RuleMatches(m, 9); Image
    else if m.mimeType.Some? && StartsWith(m.mimeType.value, "video/") then assert RuleMatches(m, 10); Video
    else if Truthy(m.file) then assert RuleMatches(m, 11); File
    else if HasLinkEntity(m.textEntities) then assert RuleMatches(m, 12); Link
    else if TextTruthy(m.text) then assert RuleMatches(m, 13); Text
    else Unknown
  }

  /** The classification policy as a table of fourteen rules, in precedence order. */
  const RuleCount: nat := 14

  function RuleResult(i: nat): MessageType
    requires i < RuleCount
  {
    [Sticker, Gif, VideoMessage, VoiceMessage, PhoneCall, PinMessage, Contact,
     Location, Image, Image, Video, File, Link, Text][i]
  }

  predicate RuleMatches(m: RawMessage, i: nat)
    requires i < RuleCount
  {
    match i
    case 0 => m.mediaType == Some("sticker")
    case 1 => m.mediaType == Some("animation")
    case 2 => m.mediaType == Some("video_message")
    case 3 => m.mediaType == Some("voice_message")
    case 4 => m.action == Some("phone_call")
    case 5 => m.action == Some("pin_message")
    case 6 => m.contactInformation
    case 7 => m.locationInformation
    case 8 => m.photo.Some? && Includes(m.photo.value, "not included")
    case 9 => m.mimeType.Some? && StartsWith(m.mimeType.value, "image/")
    case 10 => m.mimeType.Some? && StartsWith(m.mimeType.value, "video/")
    case 11 => Truthy(m.file)
    case 12 => HasLinkEntity(m.textEntities)
    case _ => TextTruthy(m.text)
  }

  /** The first rule that matches decides the category, whatever later rules say. */
  lemma ClassifyFirstMatchWins(m: RawMessage, i: nat)
    requires i < RuleCount && RuleMatches(m, i)
    requires forall j :: 0 <= j < i ==> !RuleMatches(m, j)
    ensures DetermineMessageType(m) == RuleResult(i)
  {
    if i > 0 { assert !RuleMatches(m, 0); }
    if i > 1 { assert !RuleMatches(m, 1); }
    if i > 2 { assert !RuleMatches(m, 2); }
    if i > 3 { assert !RuleMatches(m, 3); }
    if i > 4 { assert !RuleMatches(m, 4); }
    if i > 5 { assert !RuleMatches(m, 5); }
    if i > 6 { assert !RuleMatches(m, 6); }
    if i > 7 { assert !RuleMatches(m, 7); }
    if i > 8 { assert !RuleMatches(m, 8); }
    if i > 9 { assert !RuleMatches(m, 9); }
    if i > 10 { assert !RuleMatches(m, 10); }
    if i > 11 { assert !RuleMatches(m, 11); }
    if i > 12 { assert !RuleMatches(m, 12); }
  }

  /** `Unknown` is the category exactly when no rule matches. */
  lemma ClassifyUnknownIffNoRule(m: RawMessage)
    ensures DetermineMessageType(m) == Unknown <==> forall j :: 0 <= j < RuleCount ==> !RuleMatches(m, j)
  {
    if DetermineMessageType(m) == Unknown {
      forall j | 0 <= j < RuleCount ensures !RuleMatches(m, j) {
      }
    } else {
      assert RuleMatches(m, 0) || RuleMatches(m, 1) || RuleMatches(m, 2) || RuleMatches(m, 3)
        || RuleMatches(m, 4) || RuleMatches(m, 5) || RuleMatches(m, 6) || RuleMatches(m, 7)
        || RuleMatches(m, 8) || RuleMatches(m, 9) || RuleMatches(m, 10) || RuleMatches(m, 11)
        || RuleMatches(m, 12) || RuleMatches(m, 13);
    }
  }

  /** `countWords`: 0 when given no string; otherwise the number of pieces of
      the trimmed text split on whitespace, which is the number of words, or 1
      for text without words. */
  function CountWords(text: Option<string>): (n: nat)
    ensures text.None? ==> n == 0
    ensures text.Some? ==> n == if Words(text.value) == 0 then 1 else Words(text.value)
  {
    match text
    case None => 0
    case Some(t) => SplitTrimLength(t); |SplitOnSpace(Trim(t))|
  }

  /** The text the counters see: the field when it is a string, "" otherwise. */
  function TextOf(m: RawMessage): string
  {
    if m.text.PlainText? then m.text.s else ""
  }

  /** The record built for one raw message. */
  function Normalized(m: RawMessage): ParsedMessage
  {
    var text := TextOf(m);
    ParsedMessage(m.date, m.dateUnixtime, m.fromId, DetermineMessageType(m), |text|, CountWords(Some(text)))
  }

  /** A record's counts: the length of its text when that is a string (0
      otherwise), and its number of words, where text without words, absent
      text and formatted (array) text all count as one word. */
  lemma NormalizedCounts(m: RawMessage)
    ensures Normalized(m).characterCount == if m.text.PlainText? then |m.text.s| else 0
    ensures Normalized(m).wordCount >= 1
    ensures m.text.PlainText? ==>
      Normalized(m).wordCount == if Words(m.text.s) == 0 then 1 else Words(m.text.s)
    ensures !m.text.PlainText? ==> Normalized(m).wordCount == 1
  {
    if !m.text.PlainText? {
      assert Words("") == 0;
    }
  }

  /** Every record carries a `date_unixtime` that `parseInt` reads completely. */
  predicate WellFormed(ms: seq<RawMessage>)
  {
    forall i :: 0 <= i < |ms| ==> IsDecimal(ms[i].dateUnixtime)
  }

  /** The record's time in milliseconds. */
  function Timestamp(m: RawMessage): nat
    requires IsDecimal(m.dateUnixtime)
  {
    ParseDecimal(m.dateUnixtime) * 1000
  }

  /** The running minimum after the records `ms`, starting at `MaxSafeInteger`. */
  function EarliestTimestamp(ms: seq<RawMessage>): (t: int)
    requires WellFormed(ms)
    ensures 0 <= t <= MaxSafeInteger
  {
    if ms == [] then MaxSafeInteger
    else Min(EarliestTimestamp(ms[..|ms| - 1]), Timestamp(ms[|ms| - 1]))
  }

  /** The running maximum after the records `ms`, starting at 0. */
  function LatestTimestamp(ms: seq<RawMessage>): (t: int)
    requires WellFormed(ms)
    ensures t >= 0
  {
    if ms == [] then 0
    else Max(LatestTimestamp(ms[..|ms| - 1]), Timestamp(ms[|ms| - 1]))
  }

  /** Every record's timestamp lies between the running minimum and maximum. */
  lemma {:induction false} TimestampsWithinBounds(ms: seq<RawMessage>)
    requires WellFormed(ms)
    ensures forall i :: 0 <= i < |ms| ==>
      EarliestTimestamp(ms) <= Timestamp(ms[i]) <= LatestTimestamp(ms)
  {
    if ms != [] {
      TimestampsWithinBounds(ms[..|ms| - 1]);
      assert forall i :: 0 <= i < |ms| - 1 ==> ms[..|ms| - 1][i] == ms[i];
    }
  }

  /** For a non-empty export whose timestamps are safe integers, both bounds
      are the timestamps of actual records, so the span is not negative. */
  lemma {:induction false} TimestampBoundsAttained(ms: seq<RawMessage>)
    requires WellFormed(ms) && |ms| > 0
    requires forall i :: 0 <= i < |ms| ==> Timestamp(ms[i]) <= MaxSafeInteger
    ensures exists i :: 0 <= i < |ms| && EarliestTimestamp(ms) == Timestamp(ms[i])
    ensures exists i :: 0 <= i < |ms| && LatestTimestamp(ms) == Timestamp(ms[i])
    ensures LatestTimestamp(ms) - EarliestTimestamp(ms) >= 0
  {
    var n := |ms|;
    var init := ms[..n - 1];
    if n == 1 {
      assert EarliestTimestamp(ms) == Timestamp(ms[0]);
      assert LatestTimestamp(ms) == Timestamp(ms[0]);
    } else {
      assert forall i :: 0 <= i < n - 1 ==> init[i] == ms[i];
      TimestampBoundsAttained(init);
      var a :| 0 <= a < n - 1 && EarliestTimestamp(init) == Timestamp(init[a]);
      var b :| 0 <= b < n - 1 && LatestTimestamp(init) == Timestamp(init[b]);
      if EarliestTimestamp(ms) == Timestamp(ms[n - 1]) {
      } else {
        assert EarliestTimestamp(ms) == Timestamp(ms[a]);
      }
      if LatestTimestamp(ms) == Timestamp(ms[n - 1]) {
      } else {
        assert LatestTimestamp(ms) == Timestamp(ms[b]);
      }
    }
  }

  function Ids(ps: seq<Participant>): (ids: seq<string>)
    ensures |ids| == |ps| && forall k :: 0 <= k < |ps| ==> ids[k] == ps[k].id
  {
    seq(|ps|, k requires 0 <= k < |ps| => ps[k].id)
  }

  /** The participant table after registering the senders of `ms` in order: a
      sender id not yet in the table is appended with that record's name. */
  function Registry(ms: seq<RawMessage>): (r: seq<Participant>)
    ensures |r| <= |ms|
  {
    if ms == [] then []
    else
      var table := Registry(ms[..|ms| - 1]);
      var m := ms[|ms| - 1];
      if m.fromId in Ids(table) then table else table + [Participant(m.fromId, m.from)]
  }

  predicate SentBy(ms: seq<RawMessage>, id: string)
  {
    exists g :: 0 <= g < |ms| && ms[g].fromId == id
  }

  /** Whether record `i` is the first one from its sender. */
  predicate IsFirstFromSender(ms: seq<RawMessage>, i: nat)
    requires i < |ms|
  {
    forall g :: 0 <= g < i ==> ms[g].fromId != ms[i].fromId
  }

  /** The table has an entry for exactly the ids that sent a record. */
  lemma {:induction false} RegistryIdsAreSenders(ms: seq<RawMessage>)
    ensures forall id :: id in Ids(Registry(ms)) <==> SentBy(ms, id)
  {
    if ms != [] {
      var init := ms[..|ms| - 1];
      RegistryIdsAreSenders(init);
      forall id ensures id in Ids(Registry(ms)) <==> SentBy(ms, id) {
        if SentBy(ms, id) {
          var g :| 0 <= g < |ms| && ms[g].fromId == id;
          if g < |ms| - 1 {
            assert init[g] == ms[g];
            assert id in Ids(Registry(init));
            assert Ids(Registry(ms))[..|Registry(init)|] == Ids(Registry(init));
          } else {
            assert Ids(Registry(ms))[|Ids(Registry(ms))| - 1] == id || id in Ids(Registry(init));
          }
        }
        if id in Ids(Registry(ms)) && id !in Ids(Registry(init)) {
          assert id == ms[|ms| - 1].fromId;
        } else if id in Ids(Registry(ms)) {
          var g :| 0 <= g < |init| && init[g].fromId == id;
          assert ms[g].fromId == id;
        }
      }
    }
  }

  /** No id has two entries in the table. */
  lemma {:induction false} RegistryIdsUnique(ms: seq<RawMessage>)
    ensures forall a, b :: 0 <= a < b < |Registry(ms)| ==> Registry(ms)[a].id != Registry(ms)[b].id
  {
    if ms != [] {
      var init := ms[..|ms| - 1];
      RegistryIdsUnique(init);
      var table := Registry(init);
      if ms[|ms| - 1].fromId !in Ids(table) {
        forall a | 0 <= a < |table| ensures table[a].id != ms[|ms| - 1].fromId {
          assert Ids(table)[a] == table[a].id;
        }
      }
    }
  }

  /** The first record from a sender finds no entry for it in the table. */
  lemma NewSenderNotInTable(ms: seq<RawMessage>, i: nat)
    requires i < |ms| && IsFirstFromSender(ms, i)
    ensures ms[i].fromId !in Ids(Registry(ms[..i]))
  {
    RegistryIdsAreSenders(ms[..i]);
    assert forall g :: 0 <= g < i ==> ms[..i][g].fromId != ms[i].fromId;
  }

  /** The name recorded for an id is that of the first record from it. */
  lemma {:induction false} RegistryFirstWriterWins(ms: seq<RawMessage>, i: nat)
    requires i < |ms| && IsFirstFromSender(ms, i)
    ensures Participant(ms[i].fromId, ms[i].from) in Registry(ms)
  {
    var init := ms[..|ms| - 1];
    if i == |ms| - 1 {
      NewSenderNotInTable(ms, i);
    } else {
      assert forall g :: 0 <= g <= i ==> init[g] == ms[g];
      RegistryFirstWriterWins(init, i);
    }
  }

  /** Entries appear in the order of their senders' first records. */
  lemma {:induction false} RegistryInFirstAppearanceOrder(ms: seq<RawMessage>, i: nat, j: nat)
    requires i < j < |ms| && IsFirstFromSender(ms, i) && IsFirstFromSender(ms, j)
    ensures exists a, b :: (0 <= a < b < |Registry(ms)|
                             && Registry(ms)[a] == Participant(ms[i].fromId, ms[i].from)
                             && Registry(ms)[b] == Participant(ms[j].fromId, ms[j].from))
  {
    var init := ms[..|ms| - 1];
    assert forall g :: 0 <= g < |ms| - 1 ==> init[g] == ms[g];
    assert IsFirstFromSender(init, i);
    RegistryFirstWriterWins(init, i);
    var a :| 0 <= a < |Registry(init)| && Registry(init)[a] == Participant(ms[i].fromId, ms[i].from);
    if j == |ms| - 1 {
      NewSenderNotInTable(ms, j);
      assert Registry(ms)[a] == Registry(init)[a];
      assert Registry(ms)[|Registry(init)|] == Participant(ms[j].fromId, ms[j].from);
    } else {
      assert IsFirstFromSender(init, j);
      RegistryInFirstAppearanceOrder(init, i, j);
      var a', b' :| 0 <= a' < b' < |Registry(init)|
        && Registry(init)[a'] == Participant(ms[i].fromId, ms[i].from)
        && Registry(init)[b'] == Participant(ms[j].fromId, ms[j].from);
      assert Registry(ms)[a'] == Registry(init)[a'] && Registry(ms)[b'] == Registry(init)[b'];
    }
  }

  /** The JavaScript object the parser uses as a dictionary from sender id to
      participant: its entries, and the order in which their keys were inserted. */
  datatype ParticipantTable = ParticipantTable(keys: seq<string>, entries: map<string, Participant>)
  {
    /** The listed keys are the entry keys, and each entry is filed under its own id. */
    ghost predicate Valid()
    {
      (forall k :: k in keys <==> k in entries)
      && (forall k :: k in entries ==> entries[k].id == k)
    }

    /** `participants[id]` is truthy */
    predicate Has(id: string)
    {
      id in entries
    }

    /** `Object.values(participants)` */
    function Values(): seq<Participant>
      requires Valid()
    {
      seq(|keys|, i requires 0 <= i < |keys| => entries[keys[i]])
    }

    /** `participants[p.id] = p` for an id not yet present. */
    function Insert(p: Participant): (t: ParticipantTable)
      requires Valid() && !Has(p.id)
      ensures t.Valid()
      ensures t.Values() == Values() + [p]
    {
      var t := ParticipantTable(keys + [p.id], entries[p.id := p]);
      assert forall i :: 0 <= i < |keys| ==> t.keys[i] == keys[i] && keys[i] != p.id;
      t
    }

    /** An id has an entry exactly when it is the id of one of the listed values. */
    lemma HasIffListed(id: string)
      requires Valid()
      ensures Has(id) <==> id in Ids(Values())
    {
      if Has(id) {
        var i :| 0 <= i < |keys| && keys[i] == id;
        assert Ids(Values())[i] == id;
      }
    }
  }

  const EmptyTable: ParticipantTable := ParticipantTable([], map[])

  /** How the table and the running bounds change from one prefix to the next. */
  lemma PrefixStep(ms: seq<RawMessage>, i: nat)
    requires WellFormed(ms) && i < |ms|
    ensures WellFormed(ms[..i]) && WellFormed(ms[..i + 1])
    ensures Registry(ms[..i + 1]) ==
      if ms[i].fromId in Ids(Registry(ms[..i])) then Registry(ms[..i])
      else Registry(ms[..i]) + [Participant(ms[i].fromId, ms[i].from)]
    ensures EarliestTimestamp(ms[..i + 1]) == Min(EarliestTimestamp(ms[..i]), Timestamp(ms[i]))
    ensures LatestTimestamp(ms[..i + 1]) == Max(LatestTimestamp(ms[..i]), Timestamp(ms[i]))
  {
    assert ms[..i + 1][..i] == ms[..i];
    assert forall k :: 0 <= k <= i ==> ms[..i + 1][k] == ms[k];
  }

  /** Appending the next record's normalisation keeps `parsed` the element-wise
      normalisation of the records seen so far. */
  lemma NormalizedStep(parsed: seq<ParsedMessage>, ms: seq<RawMessage>, i: nat)
    requires |parsed| == i < |ms|
    requires forall k :: 0 <= k < i ==> parsed[k] == Normalized(ms[k])
    ensures forall k :: 0 <= k < i + 1 ==> (parsed + [Normalized(ms[i])])[k] == Normalized(ms[k])
  {
  }

  /** Widening the running bounds by the next timestamp keeps every seen timestamp inside them. */
  lemma BoundsStep(ms: seq<RawMessage>, i: nat, first: int, last: int)
    requires WellFormed(ms) && i < |ms|
    requires forall k :: 0 <= k < i ==> first <= Timestamp(ms[k]) <= last
    ensures forall k :: 0 <= k < i + 1 ==>
      Min(first, Timestamp(ms[i])) <= Timestamp(ms[k]) <= Max(last, Timestamp(ms[i]))
  {
  }

  /** `parseMessages`: one pass over the records that registers senders,
      normalises each record and tracks the earliest and latest timestamps. */
  method ParseMessages(messages: seq<RawMessage>) returns (r: ParseResult)
    requires WellFormed(messages)
    ensures |r.messages| == |messages|
    ensures forall i :: 0 <= i < |messages| ==> r.messages[i] == Normalized(messages[i])
    ensures forall i :: 0 <= i < |messages| ==>
      r.messages[i].from == messages[i].fromId && r.messages[i].date == messages[i].date
      && r.messages[i].dateUnixtime == messages[i].dateUnixtime
    ensures r.participants == Registry(messages)
    ensures r.firstMessageTimestamp == EarliestTimestamp(messages)
    ensures r.lastMessageTimestamp == LatestTimestamp(messages)
    ensures forall i :: 0 <= i < |messages| ==>
      r.firstMessageTimestamp <= Timestamp(messages[i]) <= r.lastMessageTimestamp
    ensures r.totalSpanMs == r.lastMessageTimestamp - r.firstMessageTimestamp
    ensures forall i :: 0 <= i < |messages| ==> r.messages[i].from in Ids(r.participants)
    ensures messages == [] ==> r.totalSpanMs == -MaxSafeInteger
  {
    var participants := EmptyTable;
    var first := MaxSafeInteger;
    var last := 0;
    var parsed: seq<ParsedMessage> := [];
    var i := 0;
    while i < |messages|
      invariant 0 <= i <= |messages|
      invariant WellFormed(messages[..i])
      invariant |parsed| == i
      invariant forall k :: 0 <= k < i ==> parsed[k] == Normalized(messages[k])
      invariant participants.Valid() && participants.Values() == Registry(messages[..i])
      invariant first == EarliestTimestamp(messages[..i])
      invariant last == LatestTimestamp(messages[..i])
      invariant forall k :: 0 <= k < i ==> first <= Timestamp(messages[k]) <= last
    {
      var message := messages[i];
      PrefixStep(messages, i);
      participants.HasIffListed(message.fromId);
      if !participants.Has(message.fromId) {
        participants := participants.Insert(Participant(message.fromId, message.from));
      }
      var timestamp := Timestamp(message);
      BoundsStep(messages, i, first, last);
      first := Min(first, timestamp);
      last := Max(last, timestamp);
      NormalizedStep(parsed, messages, i);
      parsed := parsed + [Normalized(message)];
      i := i + 1;
    }
    assert messages[..i] == messages;
    RegistryIdsAreSenders(messages);
    r := ParseResult(participants.Values(), parsed, last - first, first, last);
  }
}
