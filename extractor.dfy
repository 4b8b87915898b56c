/**
  The field extractor of `parse_message_to_entry`: the summary after the TL;DR
  marker, the note taken from the first correcting reply, and the action item
  taken from the message or, failing that, from the first reply that has one.

  Both fields come from the pattern `(?:M1|M2)\s*(.+?)(?:\n|$)` searched with
  IGNORECASE and DOTALL. `Search` below is that search written out by hand:
  the leftmost position, and at it the first alternative, from which the rest
  of the pattern can match.
 */
module Extractor {
  import opened Options
  import opened Strings
  import opened Classifier

  const ActionMarkers := ["Action:", "ACTION:"]

  /** How many characters the summary fallback and a thread note keep. */
  const ExcerptLength := 200

  /** The words that make a reply a correction, in the order the script lists them. */
  const CorrectionKeywords := [
    "actually", "correction:", "update:", "clarification:", "incorrect",
    "should note", "checking with", "waiting for", "not quite", "to clarify"
  ]

  /** Marker `m` starts at index `i` of `text`, ignoring ASCII case. */
  predicate MarkerAt(text: string, i: int, m: string) {
    0 <= i && i + |m| <= |text| && Lower(text[i..i + |m|]) == Lower(m)
  }

  /** A marker at `i` that does not end the text, so the rest of the pattern can match after it. */
  ghost predicate Usable(text: string, i: int, m: string) {
    MarkerAt(text, i, m) && i + |m| < |text|
  }

  /**
    `w` and `e` delimit the line the pattern captures from `start`: `w` is past
    the whitespace that follows `start`, and `e` is the first newline at or after
    `w`, or the end of the text.
   */
  ghost predicate LineAfter(text: string, start: int, w: int, e: int) {
    && 0 <= start <= w <= e <= |text|
    && (forall t :: start <= t < w ==> IsSpace(text[t]))
    && (w == |text| || !IsSpace(text[w]))
    && (forall t :: w <= t < e ==> text[t] != '\n')
    && (e == |text| || text[e] == '\n')
  }

  /** The line `LineAfter` describes is unique. */
  lemma LineAfterUnique(text: string, start: int, w1: int, e1: int, w2: int, e2: int)
    requires LineAfter(text, start, w1, e1) && LineAfter(text, start, w2, e2)
    ensures w1 == w2 && e1 == e2
  {
  }

  /**
    Group 1 of `\s*(.+?)(?:\n|$)` matched from `start`. The greedy `\s*` skips
    all whitespace; the lazy `(.+?)` then takes one character and stops at the
    next newline or the end. When the whitespace runs to the end of the text the
    matcher backs off one character, so the group is that last whitespace
    character. Nothing matches only when `start` is the end of the text.
   */
  function Capture(text: string, start: nat): (g: Option<string>)
    requires start <= |text|
    ensures g.None? <==> start == |text|
    ensures g.Some? ==> '\n' !in Strip(g.value)
  {
    var w := SkipSpace(text, start);
    if w < |text| then
      var e := LineEnd(text, w);
      assert forall x :: x in text[w..e] ==> x != '\n';
      StripKeepsNoNewline(text[w..e]);
      Some(text[w..e])
    else if start < |text| then
      StripAllSpace(text[|text| - 1..]);
      Some(text[|text| - 1..])
    else
      None
  }

  /** The line after `start` exists: the first non-blank and the newline after it. */
  lemma LineAfterExists(text: string, start: nat)
    requires start <= |text|
    ensures LineAfter(text, start, SkipSpace(text, start), LineEnd(text, SkipSpace(text, start)))
  {
  }

  /**
    Stripped, what `Capture` takes from `start` is the line after `start`, even
    in the backing-off case, where both sides strip to "".
   */
  lemma CaptureIsLine(text: string, start: nat, w: int, e: int)
    requires start < |text| && LineAfter(text, start, w, e)
    ensures Capture(text, start).Some? && Strip(Capture(text, start).value) == Strip(text[w..e])
  {
    var w' := SkipSpace(text, start);
    LineAfterExists(text, start);
    LineAfterUnique(text, start, w, e, w', LineEnd(text, w'));
    if w == |text| {
      StripAllSpace(text[|text| - 1..]);
      StripAllSpace(text[w..e]);
    }
  }

  /**
    The pattern tried at index `i`, alternatives in order from the `j`-th: the
    index just past the marker, where `\s*(.+?)(?:\n|$)` is matched and from
    which `Capture` takes group 1. An alternative that matches but leaves
    nothing for `Capture` (it ends the text) gives way to the next one.
   */
  function MatchAt(text: string, i: nat, alts: seq<string>, j: nat): (r: Option<nat>)
    requires i <= |text| && j <= |alts|
    ensures r.Some? ==> i <= r.value < |text|
    decreases |alts| - j
  {
    if j == |alts| then None
    else if MarkerAt(text, i, alts[j]) && i + |alts[j]| < |text| then
      Some(i + |alts[j]|)
    else
      MatchAt(text, i, alts, j + 1)
  }

  /**
    `re.search` from index `i` on: at the first index where the pattern matches,
    the index just past the marker there.
   */
  function SearchFrom(text: string, i: nat, alts: seq<string>): (r: Option<nat>)
    requires i <= |text|
    ensures r.Some? ==> i <= r.value < |text|
    decreases |text| - i
  {
    var r := MatchAt(text, i, alts, 0);
    if r.Some? || i == |text| then r else SearchFrom(text, i + 1, alts)
  }

  /** Group 1 of the first match of `(?:M1|M2)\s*(.+?)(?:\n|$)`, or `None`. */
  function Search(text: string, alts: seq<string>): (g: Option<string>)
    ensures g.Some? ==> '\n' !in Strip(g.value)
  {
    match SearchFrom(text, 0, alts)
    case Some(start) => Capture(text, start)
    case None => None
  }

  lemma {:induction false} MatchAtNone(text: string, i: nat, alts: seq<string>, j: nat)
    requires i <= |text| && j <= |alts|
    ensures MatchAt(text, i, alts, j).None? <==> forall k :: j <= k < |alts| ==> !Usable(text, i, alts[k])
    decreases |alts| - j
  {
    if j < |alts| {
      MatchAtNone(text, i, alts, j + 1);
    }
  }

  lemma {:induction false} MatchAtFirst(text: string, i: nat, alts: seq<string>, j: nat, k: nat)
    requires i <= |text| && j <= k < |alts| && Usable(text, i, alts[k])
    requires forall l :: j <= l < k ==> !Usable(text, i, alts[l])
    ensures MatchAt(text, i, alts, j) == Some(i + |alts[k]|)
    decreases k - j
  {
    if j < k {
      assert !Usable(text, i, alts[j]);
      MatchAtFirst(text, i, alts, j + 1, k);
    }
  }

  lemma {:induction false} SearchFromNone(text: string, i: nat, alts: seq<string>)
    requires i <= |text|
    ensures SearchFrom(text, i, alts).None? <==>
            forall p, k :: i <= p && 0 <= k < |alts| ==> !Usable(text, p, alts[k])
    decreases |text| - i
  {
    MatchAtNone(text, i, alts, 0);
    if i < |text| {
      SearchFromNone(text, i + 1, alts);
    }
  }

  lemma {:induction false} SearchFromFirst(text: string, i: nat, alts: seq<string>, p: nat, k: nat)
    requires i <= p && k < |alts| && Usable(text, p, alts[k])
    requires forall q, j :: i <= q < p && 0 <= j < |alts| ==> !Usable(text, q, alts[j])
    requires forall j :: 0 <= j < k ==> !Usable(text, p, alts[j])
    ensures SearchFrom(text, i, alts) == Some(p + |alts[k]|)
    decreases p - i
  {
    if i == p {
      MatchAtFirst(text, i, alts, 0, k);
    } else {
      MatchAtNone(text, i, alts, 0);
      SearchFromFirst(text, i + 1, alts, p, k);
    }
  }

  /**
    `re.search` finds nothing exactly when every marker in the text, in any case
    and either spelling, ends the text.
   */
  lemma SearchNoneIff(text: string, alts: seq<string>)
    ensures Search(text, alts).None? <==> !exists p, k :: 0 <= k < |alts| && Usable(text, p, alts[k])
  {
    SearchFromNone(text, 0, alts);
  }

  /**
    Otherwise it captures after the first usable marker: the leftmost position,
    and at that position the first alternative.
   */
  lemma SearchFindsFirstUsable(text: string, alts: seq<string>, p: nat, k: nat)
    requires k < |alts| && Usable(text, p, alts[k])
    requires forall q, j :: 0 <= q < p && 0 <= j < |alts| ==> !Usable(text, q, alts[j])
    requires forall j :: 0 <= j < k ==> !Usable(text, p, alts[j])
    ensures Search(text, alts) == Capture(text, p + |alts[k]|)
  {
    SearchFromFirst(text, 0, alts, p, k);
  }

  /** The summary: the stripped capture after the TL;DR marker, or the first 200 characters. */
  function Summary(text: string): string {
    match Search(text, TldrMarkers)
    case Some(g) => Strip(g)
    case None => Take(text, ExcerptLength)
  }

  /** No position holds both spellings of the TL;DR marker. */
  lemma TldrSpellingsExclusive(text: string, i: int)
    ensures !(MarkerAt(text, i, TldrMarkers[0]) && MarkerAt(text, i, TldrMarkers[1]))
  {
    if MarkerAt(text, i, TldrMarkers[1]) {
      assert Lower(text[i..i + 5])[2] == Lower(TldrMarkers[1])[2];
      assert LowerChar(text[i + 2]) == 'd';
    }
    if MarkerAt(text, i, TldrMarkers[0]) {
      assert Lower(text[i..i + 6])[2] == Lower(TldrMarkers[0])[2];
    }
  }

  /**
    After the leftmost TL;DR marker (any case, either spelling) that does not end
    the text, the summary is the line that follows it: leading whitespace and
    newlines skipped, cut at the next newline, stripped. It holds no newline.
   */
  lemma SummaryAfterLeftmostMarker(text: string, p: nat, k: nat)
    requires k < |TldrMarkers| && MarkerAt(text, p, TldrMarkers[k])
    requires p + |TldrMarkers[k]| < |text|
    requires forall q, j :: 0 <= q < p && 0 <= j < |TldrMarkers| ==> !MarkerAt(text, q, TldrMarkers[j])
    ensures exists w, e :: LineAfter(text, p + |TldrMarkers[k]|, w, e) && Summary(text) == Strip(text[w..e])
    ensures forall w, e :: LineAfter(text, p + |TldrMarkers[k]|, w, e) ==> Summary(text) == Strip(text[w..e])
    ensures '\n' !in Summary(text)
  {
    SearchAfterLeftmostMarker(text, p, k);
    SummaryIsLine(text, p + |TldrMarkers[k]|);
  }

  /** When the search captures from `start`, the summary is the line after `start`. */
  lemma SummaryIsLine(text: string, start: nat)
    requires start < |text| && Search(text, TldrMarkers) == Capture(text, start)
    ensures exists w, e :: LineAfter(text, start, w, e) && Summary(text) == Strip(text[w..e])
    ensures forall w, e :: LineAfter(text, start, w, e) ==> Summary(text) == Strip(text[w..e])
    ensures '\n' !in Summary(text)
  {
    SummaryOfCapture(text, start);
    var g := Capture(text, start).value;
    forall w, e | LineAfter(text, start, w, e)
      ensures Strip(g) == Strip(text[w..e])
    {
      CaptureIsLine(text, start, w, e);
    }
    LineAfterExists(text, start);
    CaptureIsLine(text, start, SkipSpace(text, start), LineEnd(text, SkipSpace(text, start)));
  }

  /** The TL;DR search captures after the leftmost marker in the text. */
  lemma SearchAfterLeftmostMarker(text: string, p: nat, k: nat)
    requires k < |TldrMarkers| && MarkerAt(text, p, TldrMarkers[k])
    requires p + |TldrMarkers[k]| < |text|
    requires forall q, j :: 0 <= q < p && 0 <= j < |TldrMarkers| ==> !MarkerAt(text, q, TldrMarkers[j])
    ensures Search(text, TldrMarkers) == Capture(text, p + |TldrMarkers[k]|)
  {
    TldrSpellingsExclusive(text, p);
    SearchFindsFirstUsable(text, TldrMarkers, p, k);
  }

  /** When the search captures from `start`, the summary is that capture, stripped. */
  lemma SummaryOfCapture(text: string, start: nat)
    requires start < |text| && Search(text, TldrMarkers) == Capture(text, start)
    ensures Capture(text, start).Some? && Summary(text) == Strip(Capture(text, start).value)
    ensures '\n' !in Summary(text)
  {
  }

  /**
    The summary falls back to the first 200 characters exactly when no TL;DR
    marker can be matched, that is when every marker ends the text; otherwise it
    holds no newline.
   */
  lemma SummaryFallback(text: string)
    ensures (!exists p, k :: 0 <= k < |TldrMarkers| && Usable(text, p, TldrMarkers[k])) ==>
            Summary(text) == Take(text, ExcerptLength)
    ensures (exists p, k :: 0 <= k < |TldrMarkers| && Usable(text, p, TldrMarkers[k])) ==>
            '\n' !in Summary(text)
  {
    SearchNoneIff(text, TldrMarkers);
  }

  /** A reply is a correction when its lower-cased text holds a correction keyword. */
  predicate IsCorrection(reply: string) {
    ContainsAny(Lower(reply), CorrectionKeywords)
  }

  /** The bracketed note a correcting reply contributes. */
  function Note(reply: string): string {
    " [Note from thread: " + Take(reply, ExcerptLength) + "]"
  }

  /** The summary with the note of the first correcting reply, if any, appended. */
  function WithNote(summary: string, replies: seq<string>): string {
    if replies == [] then summary
    else if IsCorrection(replies[0]) then summary + Note(replies[0])
    else WithNote(summary, replies[1..])
  }

  /**
    The note comes from the first correcting reply in thread order, and only from
    it: later corrections add nothing.
   */
  lemma {:induction false} NoteFromFirstCorrection(summary: string, replies: seq<string>, i: nat)
    requires i < |replies| && IsCorrection(replies[i])
    requires forall j :: 0 <= j < i ==> !IsCorrection(replies[j])
    ensures WithNote(summary, replies) ==
            summary + " [Note from thread: " + Take(replies[i], ExcerptLength) + "]"
  {
    if i > 0 {
      assert forall j :: 0 <= j < i - 1 ==> replies[1..][j] == replies[j + 1];
      NoteFromFirstCorrection(summary, replies[1..], i - 1);
    }
  }

  /** Without a correcting reply the summary is left as it is. */
  lemma {:induction false} NoNoteWithoutCorrection(summary: string, replies: seq<string>)
    requires forall j :: 0 <= j < |replies| ==> !IsCorrection(replies[j])
    ensures WithNote(summary, replies) == summary
  {
    if replies != [] {
      assert forall j :: 0 <= j < |replies| - 1 ==> replies[1..][j] == replies[j + 1];
      NoNoteWithoutCorrection(summary, replies[1..]);
    }
  }

  /**
    The loop over the replies that appends the first correction's note and
    stops.
   */
  method AddThreadNote(summary: string, replies: seq<string>) returns (tldr: string)
    ensures tldr == WithNote(summary, replies)
  {
    tldr := summary;
    var i := 0;
    while i < |replies|
      invariant 0 <= i <= |replies|
      invariant tldr == summary
      invariant WithNote(summary, replies) == WithNote(summary, replies[i..])
    {
      assert replies[i..][1..] == replies[i + 1..];
      if IsCorrection(replies[i]) {
        tldr := tldr + Note(replies[i]);
        return;
      }
      i := i + 1;
    }
  }

  /** The stripped action captured from one text, or "" when it has no usable marker. */
  function ActionIn(text: string): string {
    match Search(text, ActionMarkers)
    case Some(g) => Strip(g)
    case None => ""
  }

  /** The action of the first reply whose text matches the action pattern, or "". */
  function ReplyAction(replies: seq<string>): string {
    if replies == [] then ""
    else match Search(replies[0], ActionMarkers)
      case Some(g) => Strip(g)
      case None => ReplyAction(replies[1..])
  }

  /** The action: from the message when that is not empty, otherwise from the thread. */
  function ActionOf(text: string, replies: seq<string>): string {
    var a := ActionIn(text);
    if a != "" then a else ReplyAction(replies)
  }

  /**
    When the message yields no action, the first reply that matches the action
    pattern decides it, even when what it captures strips to "".
   */
  lemma {:induction false} ActionFromFirstMarkedReply(text: string, replies: seq<string>, i: nat)
    requires ActionIn(text) == ""
    requires i < |replies| && Search(replies[i], ActionMarkers).Some?
    requires forall j :: 0 <= j < i ==> Search(replies[j], ActionMarkers).None?
    ensures ActionOf(text, replies) == Strip(Search(replies[i], ActionMarkers).value)
  {
    if i > 0 {
      assert forall j :: 0 <= j < i - 1 ==> replies[1..][j] == replies[j + 1];
      ActionFromFirstMarkedReply(text, replies[1..], i - 1);
    }
  }

  /** With no action in the message and no reply that matches, the action is "". */
  lemma {:induction false} ActionEmptyWithoutMarker(text: string, replies: seq<string>)
    requires ActionIn(text) == ""
    requires forall j :: 0 <= j < |replies| ==> Search(replies[j], ActionMarkers).None?
    ensures ActionOf(text, replies) == ""
  {
    if replies != [] {
      assert forall j :: 0 <= j < |replies| - 1 ==> replies[1..][j] == replies[j + 1];
      ActionEmptyWithoutMarker(text, replies[1..]);
    }
  }

  lemma {:induction false} ReplyActionIsOneLine(replies: seq<string>)
    ensures '\n' !in ReplyAction(replies)
  {
    if replies != [] {
      ReplyActionIsOneLine(replies[1..]);
    }
  }

  /** Wherever it comes from, the action is a single line. */
  lemma ActionIsOneLine(text: string, replies: seq<string>)
    ensures '\n' !in ActionOf(text, replies)
  {
    ReplyActionIsOneLine(replies);
  }

  /**
    The action extraction: the message first, then, only when that gave "", the
    replies in order until one matches.
   */
  method ExtractAction(text: string, replies: seq<string>) returns (action: string)
    ensures action == ActionOf(text, replies)
  {
    action := ActionIn(text);
    if action == "" && |replies| > 0 {
      var i := 0;
      while i < |replies|
        invariant 0 <= i <= |replies|
        invariant forall j :: 0 <= j < i ==> Search(replies[j], ActionMarkers).None?
      {
        var r := Search(replies[i], ActionMarkers);
        if r.Some? {
          ActionFromFirstMarkedReply(text, replies, i);
          action := Strip(r.value);
          return;
        }
        i := i + 1;
      }
      ActionEmptyWithoutMarker(text, replies);
    }
  }

}
