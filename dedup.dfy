/**
  The deduplication and merge of `main`: every message of the batch is parsed
  with its thread, an entry is kept when its permalink is not already in the
  stored entries, and the kept entries, in message order, go in front of the
  stored ones. A candidate is compared with the stored entries only, never with
  the entries kept earlier in the same batch.
 */
module Dedup {
  import opened Options
  import opened Records

  /** The replies passed with a message: fetched only when its reply count is positive. */
  function RepliesFor(m: Message): seq<string> {
    if m.replyCount > 0 then m.thread else []
  }

  /** `entry_exists`: some stored entry has this permalink. */
  function EntryExists(entries: seq<Entry>, url: string): (b: bool)
    ensures b <==> exists i :: 0 <= i < |entries| && entries[i].slackUrl == url
  {
    if entries == [] then false
    else
      assert forall i :: 1 <= i < |entries| ==> entries[i] == entries[1..][i - 1];
      entries[0].slackUrl == url || EntryExists(entries[1..], url)
  }

  /** The result of the message loop: the kept entries, or the exception of a bad timestamp. */
  datatype Batch = Aborted | Collected(added: seq<Entry>)

  /** The message loop of `main` over `msgs`, against the stored entries `existing`. */
  function NewEntries(msgs: seq<Message>, parse: Message -> Parsed, existing: seq<Entry>): Batch
    decreases |msgs|
  {
    if msgs == [] then Collected([])
    else
      var m := msgs[|msgs| - 1];
      match NewEntries(msgs[..|msgs| - 1], parse, existing)
      case Aborted => Aborted
      case Collected(added) => Admit(added, existing, parse(m))
  }

  /**
    One step of the loop: a bad timestamp raises, a skipped message adds nothing,
    and an entry is kept when its permalink is not already stored.
   */
  function Admit(added: seq<Entry>, existing: seq<Entry>, p: Parsed): Batch {
    match p
    case BadTimestamp => Aborted
    case Skipped(_) => Collected(added)
    case Built(e) => if EntryExists(existing, e.slackUrl) then Collected(added) else Collected(added + [e])
  }

  /** The stored entries after a run: the kept entries in front of the old ones. */
  function StoreAfter(msgs: seq<Message>, parse: Message -> Parsed, existing: seq<Entry>): seq<Entry>
  {
    match NewEntries(msgs, parse, existing)
    case Aborted => existing
    case Collected(added) => added + existing
  }

  /** Once a prefix of the batch hits a bad timestamp, the whole run is aborted. */
  lemma {:induction false} AbortedSticks(msgs: seq<Message>, n: nat, parse: Message -> Parsed, existing: seq<Entry>)
    requires n <= |msgs| && NewEntries(msgs[..n], parse, existing) == Aborted
    ensures NewEntries(msgs, parse, existing) == Aborted
    decreases |msgs|
  {
    if n == |msgs| {
      assert msgs[..n] == msgs;
    } else {
      assert msgs[..|msgs| - 1][..n] == msgs[..n];
      AbortedSticks(msgs[..|msgs| - 1], n, parse, existing);
    }
  }

  /**
    The run is aborted exactly when some message of the batch parses to the
    exception of a bad timestamp; a batch without one always gives its kept entries.
   */
  lemma {:induction false} AbortedIff(msgs: seq<Message>, parse: Message -> Parsed, existing: seq<Entry>)
    ensures NewEntries(msgs, parse, existing) == Aborted <==>
            exists i :: 0 <= i < |msgs| && parse(msgs[i]) == BadTimestamp
    decreases |msgs|
  {
    if msgs != [] {
      var n := |msgs| - 1;
      AbortedIff(msgs[..n], parse, existing);
      assert forall i :: 0 <= i < n ==> msgs[..n][i] == msgs[i];
      if NewEntries(msgs, parse, existing) == Aborted && NewEntries(msgs[..n], parse, existing) != Aborted {
        assert parse(msgs[n]) == BadTimestamp;
      }
    }
  }

  /**
    How `main` parses each message of the batch: with the thread fetched for it,
    from the configured channel.
   */
  function RunParser(channel: string, calendar: string -> Option<Stamp>): Message -> Parsed {
    m => EntryOf(m, channel, RepliesFor(m), calendar)
  }

  /** One more message of the batch, parsed to `p`, extends the loop's result. */
  lemma NextMessage(msgs: seq<Message>, i: nat, parse: Message -> Parsed,
                    existing: seq<Entry>, added: seq<Entry>, p: Parsed)
    requires i < |msgs| && parse(msgs[i]) == p
    requires NewEntries(msgs[..i], parse, existing) == Collected(added)
    ensures NewEntries(msgs[..i + 1], parse, existing) == Admit(added, existing, p)
  {
    assert msgs[..i + 1][..i] == msgs[..i];
  }

  /** The loop in `main` that builds `new_entries`. */
  method CollectNewEntries(msgs: seq<Message>, channel: string, calendar: string -> Option<Stamp>,
                           existing: seq<Entry>) returns (batch: Batch)
    ensures batch == NewEntries(msgs, RunParser(channel, calendar), existing)
  {
    ghost var parse := RunParser(channel, calendar);
    var added: seq<Entry> := [];
    var i := 0;
    while i < |msgs|
      invariant 0 <= i <= |msgs|
      invariant NewEntries(msgs[..i], parse, existing) == Collected(added)
    {
      var m := msgs[i];
      var thread := [];
      if m.replyCount > 0 {
        thread := m.thread;
      }
      var parsed := ParseMessageToEntry(m, channel, thread, calendar);
      NextMessage(msgs, i, parse, existing, added, parsed);
      match parsed {
        case BadTimestamp =>
          AbortedSticks(msgs, i + 1, parse, existing);
          return Aborted;
        case Skipped(_) =>
        case Built(e) =>
          if !EntryExists(existing, e.slackUrl) {
            added := added + [e];
          }
      }
      i := i + 1;
    }
    assert msgs[..i] == msgs;
    batch := Collected(added);
  }

  /** Every kept entry's permalink is absent from the stored entries. */
  lemma {:induction false} AddedAreNew(msgs: seq<Message>, parse: Message -> Parsed,
                                       existing: seq<Entry>, added: seq<Entry>)
    requires NewEntries(msgs, parse, existing) == Collected(added)
    ensures forall k :: 0 <= k < |added| ==> !EntryExists(existing, added[k].slackUrl)
    decreases |msgs|
  {
    if msgs != [] {
      match NewEntries(msgs[..|msgs| - 1], parse, existing)
      case Collected(before) =>
        AddedAreNew(msgs[..|msgs| - 1], parse, existing, before);
    }
  }

  /** Message `i` of the batch builds an entry whose permalink is not stored yet. */
  ghost predicate Admitted(msgs: seq<Message>, parse: Message -> Parsed, existing: seq<Entry>, i: int) {
    0 <= i < |msgs| && parse(msgs[i]).Built? && !EntryExists(existing, parse(msgs[i]).entry.slackUrl)
  }

  /**
    `idx` lists, in increasing order, exactly the admitted messages, and the
    kept entries are the entries those messages build.
   */
  ghost predicate BuiltInOrder(msgs: seq<Message>, parse: Message -> Parsed, existing: seq<Entry>,
                               added: seq<Entry>, idx: seq<nat>)
  {
    && |idx| == |added|
    && (forall k :: 0 <= k < |idx| ==>
          idx[k] < |msgs| && parse(msgs[idx[k]]) == Built(added[k]))
    && (forall k, l :: 0 <= k < l < |idx| ==> idx[k] < idx[l])
    && (forall i :: 0 <= i < |msgs| ==> (Admitted(msgs, parse, existing, i) <==> i in idx))
  }

  /**
    The kept entries are exactly the entries of the admitted messages, in
    message order.
   */
  lemma {:induction false} AddedKeepMessageOrder(msgs: seq<Message>, parse: Message -> Parsed,
                                                 existing: seq<Entry>, added: seq<Entry>)
    requires NewEntries(msgs, parse, existing) == Collected(added)
    ensures exists idx :: BuiltInOrder(msgs, parse, existing, added, idx)
    decreases |msgs|
  {
    if msgs == [] {
      assert BuiltInOrder(msgs, parse, existing, added, []);
    } else {
      var n := |msgs| - 1;
      match NewEntries(msgs[..n], parse, existing)
      case Collected(before) =>
        AddedKeepMessageOrder(msgs[..n], parse, existing, before);
        var idx: seq<nat> :| BuiltInOrder(msgs[..n], parse, existing, before, idx);
        assert forall k :: 0 <= k < |idx| ==> msgs[..n][idx[k]] == msgs[idx[k]];
        assert forall i :: 0 <= i < n ==>
          (Admitted(msgs, parse, existing, i) <==> Admitted(msgs[..n], parse, existing, i));
        if Admitted(msgs, parse, existing, n) {
          assert added == before + [parse(msgs[n]).entry];
          assert BuiltInOrder(msgs, parse, existing, added, idx + [n]);
        } else {
          assert added == before;
          assert n !in idx;
          assert BuiltInOrder(msgs, parse, existing, added, idx);
        }
    }
  }

  /** Every message that builds an entry with a permalink new to the store has it kept. */
  lemma {:induction false} AddedIsComplete(msgs: seq<Message>, parse: Message -> Parsed,
                                           existing: seq<Entry>, added: seq<Entry>, i: nat, e: Entry)
    requires NewEntries(msgs, parse, existing) == Collected(added)
    requires i < |msgs| && parse(msgs[i]) == Built(e)
    requires !EntryExists(existing, e.slackUrl)
    ensures e in added
    decreases |msgs|
  {
    var n := |msgs| - 1;
    match NewEntries(msgs[..n], parse, existing)
    case Collected(before) =>
      if i < n {
        assert msgs[..n][i] == msgs[i];
        AddedIsComplete(msgs[..n], parse, existing, before, i, e);
      }
  }

  /**
    A run that stores `added` in front of `existing` leaves nothing for a second
    run over the same messages, provided the second store holds every permalink
    of the first and every kept one.
   */
  lemma {:induction false} CoveredAddsNothing(msgs: seq<Message>, parse: Message -> Parsed,
                                              existing: seq<Entry>, added: seq<Entry>, store: seq<Entry>)
    requires NewEntries(msgs, parse, existing) == Collected(added)
    requires forall i :: 0 <= i < |existing| ==> EntryExists(store, existing[i].slackUrl)
    requires forall k :: 0 <= k < |added| ==> EntryExists(store, added[k].slackUrl)
    ensures NewEntries(msgs, parse, store) == Collected([])
    decreases |msgs|
  {
    if msgs != [] {
      var n := |msgs| - 1;
      match NewEntries(msgs[..n], parse, existing)
      case Collected(before) =>
        assert forall k :: 0 <= k < |before| ==> before[k] == added[k];
        CoveredAddsNothing(msgs[..n], parse, existing, before, store);
        match parse(msgs[n])
        case Skipped(_) =>
        case Built(e) =>
          if EntryExists(existing, e.slackUrl) {
            var i :| 0 <= i < |existing| && existing[i].slackUrl == e.slackUrl;
            assert EntryExists(store, existing[i].slackUrl);
          } else {
            assert added[|before|] == e;
          }
    }
  }

  /**
    Re-running the same messages against the store a run produced changes
    nothing: every permalink is then already stored.
   */
  lemma RerunAddsNothing(msgs: seq<Message>, parse: Message -> Parsed,
                         existing: seq<Entry>)
    ensures StoreAfter(msgs, parse, StoreAfter(msgs, parse, existing)) ==
            StoreAfter(msgs, parse, existing)
  {
    match NewEntries(msgs, parse, existing)
    case Aborted =>
    case Collected(added) =>
      var store := added + existing;
      forall i | 0 <= i < |existing|
        ensures EntryExists(store, existing[i].slackUrl)
      {
        assert store[|added| + i] == existing[i];
      }
      forall k | 0 <= k < |added|
        ensures EntryExists(store, added[k].slackUrl)
      {
        assert store[k] == added[k];
      }
      CoveredAddsNothing(msgs, parse, existing, added, store);
      assert [] + store == store;
  }

  /** No two entries share a permalink. */
  ghost predicate UniqueUrls(entries: seq<Entry>) {
    forall i, j :: 0 <= i < j < |entries| ==> entries[i].slackUrl != entries[j].slackUrl
  }

  /**
    No two messages of the batch build entries with the same permalink, in
    whichever order.
   */
  ghost predicate DistinctBuiltUrls(msgs: seq<Message>, parse: Message -> Parsed) {
    forall i, j :: 0 <= i < j < |msgs| && parse(msgs[i]).Built? && parse(msgs[j]).Built? ==>
      parse(msgs[i]).entry.slackUrl != parse(msgs[j]).entry.slackUrl
  }

  /**
    The merge keeps permalinks unique when the store had unique permalinks and
    no two messages of the batch build entries with the same permalink.
   */
  lemma MergeKeepsUrlsUnique(msgs: seq<Message>, parse: Message -> Parsed,
                             existing: seq<Entry>, added: seq<Entry>)
    requires NewEntries(msgs, parse, existing) == Collected(added)
    requires UniqueUrls(existing) && DistinctBuiltUrls(msgs, parse)
    ensures UniqueUrls(added + existing)
  {
    AddedAreNew(msgs, parse, existing, added);
    AddedKeepMessageOrder(msgs, parse, existing, added);
    var idx: seq<nat> :| BuiltInOrder(msgs, parse, existing, added, idx);
    forall k, l | 0 <= k < l < |added|
      ensures added[k].slackUrl != added[l].slackUrl
    {
      assert idx[k] < idx[l];
      assert parse(msgs[idx[k]]) == Built(added[k]) && parse(msgs[idx[l]]) == Built(added[l]);
    }
    var s := added + existing;
    forall i, j | 0 <= i < j < |s|
      ensures s[i].slackUrl != s[j].slackUrl
    {
      if j >= |added| && i < |added| {
        assert s[j] == existing[j - |added|];
        assert !EntryExists(existing, added[i].slackUrl);
      } else if i >= |added| {
        assert s[i] == existing[i - |added|] && s[j] == existing[j - |added|];
      }
    }
  }

  /**
    Two messages of one batch that build the same entry, new to the store, are
    both kept: the check looks at the stored entries only, never at the entries
    kept earlier in the batch.
   */
  lemma RepeatInBatchKeptTwice(msgs: seq<Message>, parse: Message -> Parsed, existing: seq<Entry>,
                               added: seq<Entry>, i: nat, j: nat, e: Entry)
    requires NewEntries(msgs, parse, existing) == Collected(added)
    requires i < j < |msgs| && parse(msgs[i]) == Built(e) && parse(msgs[j]) == Built(e)
    requires !EntryExists(existing, e.slackUrl)
    ensures exists k, l :: 0 <= k < l < |added| && added[k] == e && added[l] == e
  {
    AddedKeepMessageOrder(msgs, parse, existing, added);
    var idx: seq<nat> :| BuiltInOrder(msgs, parse, existing, added, idx);
    assert Admitted(msgs, parse, existing, i) && Admitted(msgs, parse, existing, j);
    var k :| 0 <= k < |idx| && idx[k] == i;
    var l :| 0 <= l < |idx| && idx[l] == j;
    assert k < l;
    assert added[k] == e && added[l] == e;
  }

  /** How a run of `main` ends. */
  datatype RunOutcome = Crashed | NothingNew | Saved(count: nat)

  /** The changelog document, holding the stored entries. */
  class Changelog {
    var entries: seq<Entry>
    /** How many times the document has been written out. */
    var saves: nat

    constructor (loaded: seq<Entry>)
      ensures entries == loaded && saves == 0
    {
      entries := loaded;
      saves := 0;
    }

    /**
      One run of `main` over a fetched batch: collect the new entries, and only
      when there are some put them in front of the stored ones and save.
     */
    method Update(msgs: seq<Message>, channel: string, calendar: string -> Option<Stamp>)
      returns (outcome: RunOutcome)
      modifies this
      ensures entries == StoreAfter(msgs, RunParser(channel, calendar), old(entries))
      ensures outcome == Crashed <==>
              NewEntries(msgs, RunParser(channel, calendar), old(entries)) == Aborted
      ensures outcome == NothingNew <==>
              NewEntries(msgs, RunParser(channel, calendar), old(entries)) == Collected([])
      ensures outcome.Saved? ==> 0 < outcome.count <= |entries| && entries[outcome.count..] == old(entries)
      ensures saves == if outcome.Saved? then old(saves) + 1 else old(saves)
      ensures !outcome.Saved? ==> entries == old(entries)
    {
      var batch := CollectNewEntries(msgs, channel, calendar, entries);
      match batch
      case Aborted =>
        outcome := Crashed;
      case Collected(added) =>
        if added != [] {
          entries := added + entries;
          saves := saves + 1;
          outcome := Saved(|added|);
        } else {
          assert [] + entries == entries;
          outcome := NothingNew;
        }
    }
  }

}
