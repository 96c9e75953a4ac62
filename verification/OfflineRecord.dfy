/** The cached record as a file (main/storage/offline_store.c): its name, its text, and when
    reading the text gives back the topic and payload that were written. Strings are C
    strings: they hold no NUL character. */
module OfflineRecord {
  import opened Wrappers

  const SEQUENCE_LIMIT := 0x1_0000_0000
  const TOPIC_SIZE := 128
  const PAYLOAD_SIZE := 1024

  // ---- File names: eight hexadecimal digits and an extension ----

  function HexDigit(d: nat): char
    requires d < 16
  {
    if d < 10 then '0' + d as char else 'A' + (d - 10) as char
  }

  function HexValue(c: char): Option<nat> {
    if '0' <= c <= '9' then Some((c - '0') as nat)
    else if 'A' <= c <= 'F' then Some((c - 'A') as nat + 10)
    else if 'a' <= c <= 'f' then Some((c - 'a') as nat + 10)
    else None
  }

  function Hex(n: nat, digits: nat): (s: string)
    ensures |s| == digits
  {
    if digits == 0 then "" else Hex(n / 16, digits - 1) + [HexDigit(n % 16)]
  }

  function ParseHex(s: string): Option<nat> {
    if s == "" then Some(0)
    else
      match (ParseHex(s[..|s| - 1]), HexValue(s[|s| - 1]))
      case (Some(high), Some(low)) => Some(high * 16 + low)
      case _ => None
  }

  function RecordName(id: nat): string { Hex(id, 8) + ".TCM" }

  predicate Letter(c: char, upper: char, lower: char) { c == upper || c == lower }

  function ParseSequence(name: string): Option<nat> {
    if |name| != 12 || name[8] != '.' || !Letter(name[9], 'T', 't') || !Letter(name[10], 'C', 'c') || !Letter(name[11], 'M', 'm')
    then None
    else ParseHex(name[..8])
  }

  function Power16(k: nat): nat { if k == 0 then 1 else 16 * Power16(k - 1) }

  lemma {:induction false} HexRoundTrip(n: nat, digits: nat)
    requires n < Power16(digits)
    ensures ParseHex(Hex(n, digits)) == Some(n)
    decreases digits
  {
    if digits == 0 {
    } else {
      HexRoundTrip(n / 16, digits - 1);
      var s := Hex(n, digits);
      assert s[..digits - 1] == Hex(n / 16, digits - 1);
      DigitRoundTrip(n % 16);
    }
  }

  lemma DigitRoundTrip(d: nat)
    requires d < 16
    ensures HexValue(HexDigit(d)) == Some(d)
  {}

  /** A directory scan reads back the id a record was stored under, so ids name files. */
  lemma NameRoundTrip(id: nat)
    requires id < SEQUENCE_LIMIT
    ensures ParseSequence(RecordName(id)) == Some(id)
  {
    var name := RecordName(id);
    assert Power16(8) == SEQUENCE_LIMIT by {
      assert Power16(4) == 0x1_0000;
      assert Power16(5) == 16 * Power16(4) && Power16(6) == 16 * Power16(5) && Power16(7) == 16 * Power16(6);
    }
    assert name[..8] == Hex(id, 8);
    HexRoundTrip(id, 8);
  }

  /** A name is eight upper-case hexadecimal digits and an extension, as FAT wants it. */
  lemma NameIsShort(id: nat)
    ensures var name := RecordName(id);
            |name| == 12 && name[8..] == ".TCM" && forall i :: 0 <= i < 8 ==> '0' <= name[i] <= '9' || 'A' <= name[i] <= 'F'
  {
    HexDigits(id, 8);
  }

  lemma {:induction false} HexDigits(n: nat, digits: nat)
    ensures forall i :: 0 <= i < digits ==> '0' <= Hex(n, digits)[i] <= '9' || 'A' <= Hex(n, digits)[i] <= 'F'
  {
    if digits > 0 { HexDigits(n / 16, digits - 1); }
  }

  lemma NamesDistinct(a: nat, b: nat)
    requires a < SEQUENCE_LIMIT && b < SEQUENCE_LIMIT && RecordName(a) == RecordName(b)
    ensures a == b
  {
    NameRoundTrip(a);
    NameRoundTrip(b);
  }

  // ---- File text: the id, the topic and the payload on lines of their own ----

  function Decimal(n: nat): (s: string)
    ensures s != ""
  {
    if n < 10 then ['0' + n as char] else Decimal(n / 10) + ['0' + (n % 10) as char]
  }

  function FileText(id: nat, topic: string, payload: string): string {
    Decimal(id) + "\n" + topic + "\n" + payload
  }

  /** fgets with room for `room` characters: up to and including the first line feed. */
  function Fgets(s: string, room: nat): string {
    if s == "" || room == 0 then ""
    else if s[0] == '\n' then "\n"
    else [s[0]] + Fgets(s[1..], room - 1)
  }

  // The part of a line before its first carriage return or line feed.
  function Chomp(s: string): string {
    if s == "" || s[0] == '\n' || s[0] == '\r' then "" else [s[0]] + Chomp(s[1..])
  }

  datatype Content = Content(topic: string, payload: string)

  lemma {:induction false} FgetsIsPrefix(s: string, room: nat)
    ensures Fgets(s, room) <= s && |Fgets(s, room)| <= room
    decreases room
  {
    if s != "" && room > 0 && s[0] != '\n' { FgetsIsPrefix(s[1..], room - 1); }
  }

  // The topic line and, behind it, the payload.
  function ReadBody(body: string): Option<Content> {
    var topicLine := Fgets(body, TOPIC_SIZE - 1);
    FgetsIsPrefix(body, TOPIC_SIZE - 1);
    if topicLine == "" then None else Some(Content(Chomp(topicLine), FirstPart(body[|topicLine|..])))
  }

  function ReadContent(text: string): Option<Content> {
    var line := Fgets(text, 15);
    FgetsIsPrefix(text, 15);
    if line == "" then None else ReadBody(text[|line|..])
  }

  function FirstPart(s: string): string { if |s| <= PAYLOAD_SIZE - 1 then s else s[..PAYLOAD_SIZE - 1] }

  predicate OneLine(s: string) { '\n' !in s && '\r' !in s }

  lemma {:induction false} FgetsLine(s: string, rest: string, room: nat)
    requires '\n' !in s
    ensures Fgets(s + "\n" + rest, room) == if |s| < room then s + "\n" else s[..room]
    decreases s
  {
    var all := s + "\n" + rest;
    if s == "" {
      assert all[0] == '\n';
    } else if room > 0 {
      assert all[0] == s[0] && all[1..] == s[1..] + "\n" + rest;
      FgetsLine(s[1..], rest, room - 1);
    }
  }

  lemma {:induction false} ChompLine(s: string, tail: string)
    requires OneLine(s) && (tail == "" || tail[0] == '\n')
    ensures Chomp(s + tail) == s
    decreases s
  {
    if s == "" {
      assert s + tail == tail;
    } else {
      assert (s + tail)[0] == s[0] && (s + tail)[1..] == s[1..] + tail;
      ChompLine(s[1..], tail);
    }
  }

  lemma {:induction false} ChompClean(s: string)
    ensures OneLine(Chomp(s))
  {
    if s != "" && s[0] != '\n' && s[0] != '\r' { ChompClean(s[1..]); }
  }

  function Power10(k: nat): nat { if k == 0 then 1 else 10 * Power10(k - 1) }

  lemma {:induction false} DecimalShort(n: nat, k: nat)
    requires k >= 1 && n < Power10(k)
    ensures |Decimal(n)| <= k && '\n' !in Decimal(n)
    decreases n
  {
    if n >= 10 {
      assert Power10(1) == 10 * Power10(0);
      assert Power10(k) == 10 * Power10(k - 1);
      DecimalShort(n / 10, k - 1);
    }
  }

  // The first line is always the id, so the reader starts at the topic.
  lemma HeaderRead(id: nat, topic: string, payload: string)
    requires id < SEQUENCE_LIMIT
    ensures Fgets(FileText(id, topic, payload), 15) == Decimal(id) + "\n"
    ensures ReadContent(FileText(id, topic, payload)) == ReadBody(topic + "\n" + payload)
  {
    assert Power10(10) == 10_000_000_000 by {
      assert Power10(5) == 100_000;
      assert Power10(6) == 10 * Power10(5) && Power10(7) == 10 * Power10(6) && Power10(8) == 10 * Power10(7)
          && Power10(9) == 10 * Power10(8);
    }
    DecimalShort(id, 10);
    var head := Decimal(id);
    assert FileText(id, topic, payload) == head + "\n" + (topic + "\n" + payload);
    FgetsLine(head, topic + "\n" + payload, 15);
    assert FileText(id, topic, payload)[|head| + 1..] == topic + "\n" + payload;
  }

  lemma ShortTopic(id: nat, topic: string, payload: string)
    requires id < SEQUENCE_LIMIT && OneLine(topic) && |topic| <= 126
    ensures ReadContent(FileText(id, topic, payload)) ==
              Some(Content(topic, if |payload| <= 1023 then payload else payload[..1023]))
  {
    HeaderRead(id, topic, payload);
    FgetsLine(topic, payload, TOPIC_SIZE - 1);
    ChompLine(topic, "\n");
    assert (topic + "\n" + payload)[|topic| + 1..] == payload;
  }

  // A longer topic is cut, and what is left of its line becomes the start of the payload.
  lemma LongTopic(id: nat, topic: string, payload: string)
    requires id < SEQUENCE_LIMIT && OneLine(topic) && |topic| >= 127
    ensures ReadContent(FileText(id, topic, payload)) ==
              Some(Content(topic[..127], FirstPart(topic[127..] + "\n" + payload)))
  {
    HeaderRead(id, topic, payload);
    FgetsLine(topic, payload, TOPIC_SIZE - 1);
    var line := topic[..TOPIC_SIZE - 1];
    assert line + "" == line;
    ChompLine(line, "");
    assert (topic + "\n" + payload)[TOPIC_SIZE - 1..] == topic[TOPIC_SIZE - 1..] + "\n" + payload;
  }

  // A text that the line feed before it does not change.
  ghost predicate AllLineFeeds(s: string) { forall i :: 0 <= i < |s| ==> s[i] == '\n' }

  lemma {:induction false} ShiftedSame(s: string, i: nat)
    requires i < |s| && FirstPart("\n" + s) == s
    ensures s[i] == '\n'
  {
    var shifted := "\n" + s;
    assert FirstPart(shifted)[i] == shifted[i];
    if i == 0 {
    } else {
      assert shifted[i] == s[i - 1];
      ShiftedSame(s, i - 1);
    }
  }

  lemma ShiftedSameIff(s: string)
    ensures FirstPart("\n" + s) == s <==> |s| == PAYLOAD_SIZE - 1 && AllLineFeeds(s)
  {
    if FirstPart("\n" + s) == s {
      assert |s| == PAYLOAD_SIZE - 1;
      forall i | 0 <= i < |s| ensures s[i] == '\n' { ShiftedSame(s, i); }
    }
    if |s| == PAYLOAD_SIZE - 1 && AllLineFeeds(s) { assert FirstPart("\n" + s) == s; }
  }

  // At 127 characters only the line feed behind the topic is left over.
  lemma EdgeTopic(id: nat, topic: string, payload: string)
    requires id < SEQUENCE_LIMIT && OneLine(topic) && |topic| == TOPIC_SIZE - 1
    ensures ReadContent(FileText(id, topic, payload)) == Some(Content(topic, FirstPart("\n" + payload)))
  {
    LongTopic(id, topic, payload);
    assert topic[..TOPIC_SIZE - 1] == topic;
    assert topic[TOPIC_SIZE - 1..] + "\n" + payload == "\n" + payload;
  }

  lemma SplitTopic(id: nat, topic: string, payload: string)
    requires id < SEQUENCE_LIMIT && !OneLine(topic)
    ensures ReadContent(FileText(id, topic, payload)) != Some(Content(topic, payload))
  {
    HeaderRead(id, topic, payload);
    ChompClean(Fgets(topic + "\n" + payload, TOPIC_SIZE - 1));
  }

  /** Reading gives back exactly what was written when, and only when, the topic is a single
      line of at most 126 characters and the payload has at most 1023. (One oddity apart: after
      a topic of 127 characters a payload of 1023 line feeds looks the same shifted by one.) */
  lemma ContentRoundTripIff(id: nat, topic: string, payload: string)
    requires id < SEQUENCE_LIMIT
    ensures ReadContent(FileText(id, topic, payload)) == Some(Content(topic, payload)) <==>
              && OneLine(topic) && |payload| <= 1023
              && (|topic| <= 126
                  || (|topic| == 127 && |payload| == 1023 && AllLineFeeds(payload)))
  {
    if !OneLine(topic) {
      SplitTopic(id, topic, payload);
    } else if |topic| <= TOPIC_SIZE - 2 {
      ShortTopic(id, topic, payload);
    } else if |topic| == TOPIC_SIZE - 1 {
      EdgeTopic(id, topic, payload);
      ShiftedSameIff(payload);
    } else {
      LongTopic(id, topic, payload);
    }
  }
}
