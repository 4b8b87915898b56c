/**
  The record builder of `parse_message_to_entry`: one chat message, with the
  thread replies fetched for it, becomes a changelog entry, no entry, or the
  exception that a timestamp which is not a number raises.

  The month, year and date come from `datetime.fromtimestamp(float(ts))` in the
  local time zone; the model takes that conversion as the `calendar` parameter,
  which gives `None` where `float(ts)` would raise.
 */
module Records {
  import opened Options
  import opened Classifier
  import opened Extractor

  /**
    A message as the history fetch returns it: its text, its timestamp token
    (such as "1712345678.123456"), its reply count and the replies a thread fetch
    returns for it, parent excluded.
   */
  datatype Message = Message(text: string, ts: string, replyCount: int, thread: seq<string>)

  /** The calendar fields derived from a timestamp: "march", "2024", "March 05, 2024". */
  datatype Stamp = Stamp(month: string, year: string, date: string)

  /** One changelog record, with the six fields the store keeps. */
  datatype Entry = Entry(month: string, year: string, date: string, tldr: string, action: string, slackUrl: string)

  /** The outcome of parsing one message. */
  datatype Parsed = Skipped(verdict: Verdict) | Built(entry: Entry) | BadTimestamp

  const ArchiveUrl := "https://shopify.slack.com/archives/"

  /** `ts.replace('.', '')`. */
  function DropDots(ts: string): (r: string)
    ensures '.' !in r
    ensures |r| <= |ts|
    ensures '.' !in ts ==> r == ts
  {
    if ts == [] then [] else (if ts[0] == '.' then [] else [ts[0]]) + DropDots(ts[1..])
  }

  lemma {:induction false} DropDotsConcat(a: string, b: string)
    ensures DropDots(a + b) == DropDots(a) + DropDots(b)
  {
    if a == [] {
      assert a + b == b;
    } else {
      assert (a + b)[0] == a[0] && (a + b)[1..] == a[1..] + b;
      assert DropDots(a + b) == (if a[0] == '.' then [] else [a[0]]) + DropDots(a[1..] + b);
      DropDotsConcat(a[1..], b);
    }
  }

  /** The message's permalink: the archive URL, the channel, "/p" and the timestamp without dots. */
  function Permalink(channel: string, ts: string): (url: string)
    ensures ArchiveUrl + channel + "/p" <= url
    ensures '.' !in url[|ArchiveUrl + channel + "/p"|..]
  {
    var prefix := ArchiveUrl + channel + "/p";
    assert (prefix + DropDots(ts))[|prefix|..] == DropDots(ts);
    prefix + DropDots(ts)
  }

  /**
    For a timestamp of the form seconds "." fraction, the permalink ends in the
    seconds followed directly by the fraction.
   */
  lemma PermalinkOfTimestamp(channel: string, seconds: string, fraction: string)
    requires '.' !in seconds && '.' !in fraction
    ensures Permalink(channel, seconds + "." + fraction) == ArchiveUrl + channel + "/p" + seconds + fraction
  {
    var prefix := ArchiveUrl + channel + "/p";
    DropDotsAroundDot(seconds, fraction);
    assert prefix + (seconds + fraction) == prefix + seconds + fraction;
  }

  /** Removing the dots of seconds "." fraction joins the two parts. */
  lemma DropDotsAroundDot(seconds: string, fraction: string)
    requires '.' !in seconds && '.' !in fraction
    ensures DropDots(seconds + "." + fraction) == seconds + fraction
  {
    assert DropDots(".") == [] by {
      assert "."[0] == '.' && "."[1..] == [];
    }
    DropDotsConcat(seconds, ".");
    DropDotsConcat(seconds + ".", fraction);
  }

  /**
    Where the dot stands does not reach the permalink: "1.23" and "12.3" give the
    same URL, so the URL identifies a message only because the chat service
    writes every timestamp with the same number of fraction digits.
   */
  lemma PermalinkForgetsDotPosition(channel: string, s1: string, f1: string, s2: string, f2: string)
    requires '.' !in s1 && '.' !in f1 && '.' !in s2 && '.' !in f2
    requires s1 + f1 == s2 + f2
    ensures Permalink(channel, s1 + "." + f1) == Permalink(channel, s2 + "." + f2)
  {
    PermalinkOfTimestamp(channel, s1, f1);
    PermalinkOfTimestamp(channel, s2, f2);
    assert ArchiveUrl + channel + "/p" + s1 + f1 == ArchiveUrl + channel + "/p" + (s1 + f1);
    assert ArchiveUrl + channel + "/p" + s2 + f2 == ArchiveUrl + channel + "/p" + (s2 + f2);
  }

  /** What `parse_message_to_entry` returns for a message and the replies passed with it. */
  function EntryOf(m: Message, channel: string, replies: seq<string>, calendar: string -> Option<Stamp>): Parsed {
    var verdict := Classify(m.text, replies);
    if verdict != Pass then Skipped(verdict)
    else
      var tldr := WithNote(Summary(m.text), replies);
      var action := ActionOf(m.text, replies);
      match calendar(m.ts)
      case None => BadTimestamp
      case Some(st) => Built(Entry(st.month, st.year, st.date, tldr, action, Permalink(channel, m.ts)))
  }

  /**
    A message whose own text lacks both "TL;DR:" and "TLDR:", exactly as spelled,
    gives no entry, whatever its replies say.
   */
  lemma NoMarkerNoEntry(m: Message, channel: string, replies: seq<string>, calendar: string -> Option<Stamp>)
    requires !HasMarker(m.text)
    ensures EntryOf(m, channel, replies, calendar) == Skipped(NoMarker)
  {
    ClassifyVerdicts(m.text, replies);
  }

  /**
    A message is dropped, even with a marker, when neither it nor any reply
    mentions the product, or when it or any reply mentions spam or asks for help
    (all ignoring ASCII case).
   */
  lemma FilteredNoEntry(m: Message, channel: string, replies: seq<string>, calendar: string -> Option<Stamp>)
    requires !Mentions(m.text, replies, ProductWord) || Mentions(m.text, replies, SpamWord) ||
             AsksForHelp(m.text, replies)
    ensures EntryOf(m, channel, replies, calendar).Skipped?
  {
    ClassifyVerdicts(m.text, replies);
  }

  /**
    A message that passes every filter gives an entry when its timestamp converts
    and raises otherwise; a bad timestamp on a filtered-out message goes unnoticed.
    The entry's key is the permalink of the message's channel and timestamp.
   */
  lemma EntryOutcome(m: Message, channel: string, replies: seq<string>, calendar: string -> Option<Stamp>)
    ensures EntryOf(m, channel, replies, calendar).Built? <==>
            Classify(m.text, replies) == Pass && calendar(m.ts).Some?
    ensures EntryOf(m, channel, replies, calendar) == BadTimestamp <==>
            Classify(m.text, replies) == Pass && calendar(m.ts).None?
    ensures EntryOf(m, channel, replies, calendar).Built? ==>
            EntryOf(m, channel, replies, calendar).entry.slackUrl == Permalink(channel, m.ts)
  {
  }

  /** The body of `parse_message_to_entry`, with its two loops over the replies. */
  method ParseMessageToEntry(m: Message, channel: string, replies: seq<string>, calendar: string -> Option<Stamp>)
    returns (r: Parsed)
    ensures r == EntryOf(m, channel, replies, calendar)
  {
    var verdict := Classify(m.text, replies);
    if verdict != Pass {
      return Skipped(verdict);
    }
    var tldr := AddThreadNote(Summary(m.text), replies);
    var action := ExtractAction(m.text, replies);
    var stamp := calendar(m.ts);
    if stamp.None? {
      return BadTimestamp;
    }
    r := Built(Entry(stamp.value.month, stamp.value.year, stamp.value.date, tldr, action, Permalink(channel, m.ts)));
  }

}
