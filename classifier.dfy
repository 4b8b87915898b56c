/**
  The classifier of `parse_message_to_entry`: a message is a changelog
  candidate only if its own text carries a TL;DR marker, and it is kept only if
  the text of the message together with its thread mentions the product, does
  not mention spam and does not read as a request for help. The checks run in
  that order and the first one that fails decides the verdict.
 */
module Classifier {
  import opened Strings

  /** What separates a message from its thread replies in the combined context. */
  const ThreadLabel := "\n\nThread context:\n"

  /**
    The two spellings of the summary marker. The shape check looks for them
    case-sensitively; the summary pattern matches them ignoring case.
   */
  const TldrMarkers := ["TL;DR:", "TLDR:"]

  const ProductWord := "sprout"
  const SpamWord := "spam"

  /** The help-seeking phrases, in the order the script lists them. */
  const HelpPatterns := [
    "help with", "help me", "can someone help", "need help", "anyone know",
    "how do i", "how to", "question:", "asking for help"
  ]

  /** Why a message was or was not kept, one value per check. */
  datatype Verdict = Pass | NoMarker | NoProductMention | SpamMarker | HelpRequest

  /**
    The text the filters read: the message alone, or the message, the label and
    the replies joined by newlines when there are replies.
   */
  function Context(text: string, replies: seq<string>): string {
    if replies == [] then text else text + ThreadLabel + Join(replies)
  }

  /** The ordered filter chain, on ASCII-lower-cased context. */
  function Classify(text: string, replies: seq<string>): Verdict {
    if !Contains(text, TldrMarkers[0]) && !Contains(text, TldrMarkers[1]) then NoMarker
    else
      var low := Lower(Context(text, replies));
      if !Contains(low, ProductWord) then NoProductMention
      else if Contains(low, SpamWord) then SpamMarker
      else if ContainsAny(low, HelpPatterns) then HelpRequest
      else Pass
  }

  /** The message's own text holds a marker, in exactly one of the two spellings' case. */
  ghost predicate HasMarker(text: string) {
    Occurs(text, TldrMarkers[0]) || Occurs(text, TldrMarkers[1])
  }

  /** `k` occurs, ignoring ASCII case, in the message or in one of its replies. */
  ghost predicate Mentions(text: string, replies: seq<string>, k: string) {
    Occurs(Lower(text), k) || exists i :: 0 <= i < |replies| && Occurs(Lower(replies[i]), k)
  }

  /** Some help-seeking phrase occurs in the message or one of its replies. */
  ghost predicate AsksForHelp(text: string, replies: seq<string>) {
    exists i :: 0 <= i < |HelpPatterns| && Mentions(text, replies, HelpPatterns[i])
  }

  lemma {:induction false} JoinOccurs(parts: seq<string>, k: string)
    requires |parts| > 0 && '\n' !in k && k != []
    ensures Occurs(Lower(Join(parts)), k) <==>
            exists i :: 0 <= i < |parts| && Occurs(Lower(parts[i]), k)
  {
    if |parts| > 1 {
      var rest := Join(parts[1..]);
      JoinOccurs(parts[1..], k);
      LowerConcat(parts[0] + "\n", rest);
      LowerConcat(parts[0], "\n");
      assert Lower("\n") == "\n";
      NotInNewline(k);
      OccursAcross(Lower(parts[0]), "\n", Lower(rest), k);
      assert forall i :: 1 <= i < |parts| ==> parts[i] == parts[1..][i - 1];
    }
  }

  /**
    A word without a newline that the label does not hold occurs in the lower-cased
    context exactly when it occurs in the lower-cased message or in a lower-cased
    reply: the label and the joins add nothing and split nothing.
   */
  lemma ContextMentions(text: string, replies: seq<string>, k: string)
    requires '\n' !in k && !Occurs(Lower(ThreadLabel), k)
    ensures Occurs(Lower(Context(text, replies)), k) <==> Mentions(text, replies, k)
  {
    if replies != [] {
      AbsentIsNonEmpty(Lower(ThreadLabel), k);
      var joined := Join(replies);
      LowerConcat(text + ThreadLabel, joined);
      LowerConcat(text, ThreadLabel);
      assert Lower(ThreadLabel)[0] == '\n';
      assert Lower(ThreadLabel)[|ThreadLabel| - 1] == '\n';
      OccursAcross(Lower(text), Lower(ThreadLabel), Lower(joined), k);
      JoinOccurs(replies, k);
    }
  }

  /** Every word the filters look for satisfies the requirements of `ContextMentions`. */
  lemma FilterWordAvoidsLabel(k: string)
    requires k == ProductWord || k == SpamWord || k in HelpPatterns
    ensures '\n' !in k && !Occurs(Lower(ThreadLabel), k)
  {
    LabelLacks();
    if 'p' in k {
      AbsentChar(ThreadLabel, k, 'p');
    } else if 'w' in k {
      AbsentChar(ThreadLabel, k, 'w');
    } else {
      assert k == "question:";
      AbsentChar(ThreadLabel, k, 'q');
    }
  }

  /** The lower-cased label holds none of 'p', 'w' and 'q'. */
  lemma LabelLacks()
    ensures forall x :: x in ThreadLabel ==> LowerChar(x) != 'p' && LowerChar(x) != 'w' && LowerChar(x) != 'q'
  {
  }

  /**
    The verdict of the filter chain, stated on the message and its replies one by
    one: the shape check reads only the message and is case-sensitive; the other
    checks ignore case and fire on the message or on any single reply; the first
    failing check names the verdict.
   */
  lemma ClassifyVerdicts(text: string, replies: seq<string>)
    ensures Classify(text, replies) == NoMarker <==> !HasMarker(text)
    ensures Classify(text, replies) == NoProductMention <==>
              HasMarker(text) && !Mentions(text, replies, ProductWord)
    ensures Classify(text, replies) == SpamMarker <==>
              HasMarker(text) && Mentions(text, replies, ProductWord) && Mentions(text, replies, SpamWord)
    ensures Classify(text, replies) == HelpRequest <==>
              HasMarker(text) && Mentions(text, replies, ProductWord) && !Mentions(text, replies, SpamWord) &&
              AsksForHelp(text, replies)
    ensures Classify(text, replies) == Pass <==>
              HasMarker(text) && Mentions(text, replies, ProductWord) && !Mentions(text, replies, SpamWord) &&
              !AsksForHelp(text, replies)
  {
    FilterWordAvoidsLabel(ProductWord);
    ContextMentions(text, replies, ProductWord);
    FilterWordAvoidsLabel(SpamWord);
    ContextMentions(text, replies, SpamWord);
    forall i | 0 <= i < |HelpPatterns|
      ensures Occurs(Lower(Context(text, replies)), HelpPatterns[i]) <==> Mentions(text, replies, HelpPatterns[i])
    {
      FilterWordAvoidsLabel(HelpPatterns[i]);
      ContextMentions(text, replies, HelpPatterns[i]);
    }
  }

}
