/**
 * The `messages.upsert` auto-reply rule. Only the first message of a batch is looked at; its
 * text is taken from the FIRST key of its payload object (`conversation`, the `text` of an
 * `extendedTextMessage`, the `caption` of an `imageMessage`, and `''` for any other key), and a
 * reply `{ text: 'hello' }` quoting the message goes to its sender when the lowercased text is
 * `'hi'`.
 */
module Dispatch {
  import opened Wrappers

  const ConversationKey := "conversation"
  const ExtendedTextKey := "extendedTextMessage"
  const ImageKey := "imageMessage"
  const Trigger := "hi"
  const ReplyText := "hello"

  /** The string the rule reads under a payload key (`conversation` itself, `.text`, `.caption`),
      or `Missing` when that value is `undefined` or `null`. */
  datatype Field = Text(text: string) | Missing

  /** One key of the payload object, in the object's own key order. */
  datatype Entry = Entry(key: string, field: Field)

  /** An inbound message: its `key.remoteJid` and its optional `message` payload. */
  datatype Message = Message(remoteJid: string, payload: Option<seq<Entry>>)

  /** What the handler does: nothing, one reply, or it throws (a `TypeError`). */
  datatype Decision =
    | Ignore
    | Reply(to: string, text: string, quoted: Message)
    | Fault

  /** `toLowerCase` on the ASCII letters; other characters are left as they are. */
  function LowerChar(c: char): char {
    if 'A' <= c <= 'Z' then (c as int + 32) as char else c
  }

  function Lower(s: string): (r: string)
    ensures |r| == |s|
    ensures forall i :: 0 <= i < |s| ==> r[i] == LowerChar(s[i])
  {
    if s == [] then [] else [LowerChar(s[0])] + Lower(s[1..])
  }

  /** The text the handler compares, or `None` when it reads a missing value and throws. A
      non-empty text is always the first key's own string, and only the first key can throw. */
  function ExtractText(payload: seq<Entry>): (r: Option<string>)
    ensures r.Some? && r.value != "" ==>
      |payload| > 0 && payload[0].key in {ConversationKey, ExtendedTextKey, ImageKey} &&
      payload[0].field == Text(r.value)
    ensures r.None? ==> |payload| > 0 && payload[0].field == Missing
  {
    if payload == [] then Some("")
    else
      var first := payload[0];
      if first.key in {ConversationKey, ExtendedTextKey, ImageKey} then
        match first.field
        case Text(t) => Some(t)
        case Missing => None
      else Some("")
  }

  /** The handler for one batch of inbound messages. A reply always says "hello", goes to the
      first message's sender and quotes that message; a first message without payload is
      ignored; an empty batch makes `messages[0].message` throw. */
  function OnMessages(messages: seq<Message>): (d: Decision)
    ensures d.Reply? ==>
      |messages| > 0 && d == Reply(messages[0].remoteJid, ReplyText, messages[0])
    ensures |messages| > 0 && messages[0].payload.None? ==> d == Ignore
    ensures messages == [] ==> d == Fault
  {
    if messages == [] then Fault
    else
      var m := messages[0];
      match m.payload
      case None => Ignore
      case Some(payload) =>
        match ExtractText(payload)
        case None => Fault
        case Some(t) => if Lower(t) == Trigger then Reply(m.remoteJid, ReplyText, m) else Ignore
  }

  /** The texts that trigger the reply are exactly the four spellings of "hi". */
  lemma TriggerSpellings(t: string)
    ensures Lower(t) == Trigger <==> t in {"hi", "hI", "Hi", "HI"}
  {
    if Lower(t) == Trigger {
      assert |t| == 2;
      assert LowerChar(t[0]) == 'h' && LowerChar(t[1]) == 'i';
      assert t == [t[0], t[1]];
    }
    if t in {"hi", "hI", "Hi", "HI"} {
      assert Lower(t) == [LowerChar(t[0]), LowerChar(t[1])];
    }
  }

  /** A reply is sent exactly when the first message has a payload whose first key is one of the
      three text-bearing keys, that key's text is a spelling of "hi"; the reply says "hello", goes
      to the sender and quotes the message. */
  lemma ReplyExactly(messages: seq<Message>)
    ensures OnMessages(messages).Reply? <==>
      |messages| > 0 && messages[0].payload.Some? && |messages[0].payload.value| > 0 &&
      messages[0].payload.value[0].key in {ConversationKey, ExtendedTextKey, ImageKey} &&
      messages[0].payload.value[0].field.Text? &&
      messages[0].payload.value[0].field.text in {"hi", "hI", "Hi", "HI"}
    ensures OnMessages(messages).Reply? ==>
      OnMessages(messages) == Reply(messages[0].remoteJid, "hello", messages[0])
  {
    if |messages| > 0 && messages[0].payload.Some? && |messages[0].payload.value| > 0 {
      var first := messages[0].payload.value[0];
      if first.field.Text? {
        TriggerSpellings(first.field.text);
      }
    }
  }

  /** The rule reads only the first message, and of it only the sender and the first key. */
  lemma FirstKeyOnly(messages: seq<Message>, later: seq<Message>, rest: seq<Entry>)
    requires |messages| > 0 && messages[0].payload.Some? && |messages[0].payload.value| > 0
    ensures
      var m := messages[0];
      var m' := Message(m.remoteJid, Some([m.payload.value[0]] + rest));
      var d := OnMessages([m'] + later);
      OnMessages(messages) == (if d.Reply? then Reply(d.to, d.text, m) else d)
  {
  }

  /** A message without a payload is ignored, whatever its sender. */
  lemma NoPayloadNoReply(m: Message, later: seq<Message>)
    requires m.payload.None?
    ensures OnMessages([m] + later) == Ignore
  {
  }

  /** A payload whose first key is none of the three text-bearing keys never gets a reply,
      even when a later key carries "hi". */
  lemma OtherShapeNoReply(m: Message, first: Entry, rest: seq<Entry>)
    requires first.key !in {ConversationKey, ExtendedTextKey, ImageKey}
    requires m.payload == Some([first] + rest)
    ensures OnMessages([m]) == Ignore
  {
  }

  /** "Hi" as a conversation and "hi" as an image caption both get the reply. */
  lemma TriggerExamples(jid: string)
    ensures
      var m := Message(jid, Some([Entry(ConversationKey, Text("Hi"))]));
      OnMessages([m]) == Reply(jid, "hello", m)
    ensures
      var m := Message(jid, Some([Entry(ImageKey, Text("hi"))]));
      OnMessages([m]) == Reply(jid, "hello", m)
  {
    TriggerSpellings("Hi");
    TriggerSpellings("hi");
  }

  /** An image without caption (or a text key whose value is missing) makes the handler throw. */
  lemma MissingTextFaults(m: Message, key: string, rest: seq<Entry>)
    requires key in {ConversationKey, ExtendedTextKey, ImageKey}
    requires m.payload == Some([Entry(key, Missing)] + rest)
    ensures OnMessages([m]) == Fault
  {
  }
}
