/**
 * The rewrite step: the prompt that embeds the original article and each
 * reference document, numbered from 1 in scrape order, and how the completion
 * is read back. The completion itself is an input of the model.
 */
module Rewrite {
  import opened Options
  import opened Text
  import opened Records
  import opened Extract

  const PromptIntro: string :=
    "\nYou are a content writer. Update the following article to match the style and formatting of the reference articles while keeping the core message intact.\n\nOriginal Article:\nTitle: "
  const PromptInstructions: string :=
    "\n\nInstructions:\n1. Rewrite the original article to match the tone, style, and formatting of the reference articles\n2. Keep the core message and key points of the original article\n3. Improve readability and engagement\n4. Make it SEO-friendly\n5. Return only the updated content, no additional commentary\n\nUpdated Article:"

  /** The block that presents document `d` as reference number `k`. */
  function ReferenceEntry(k: nat, d: RefDoc): string {
    "\nReference " + NatToString(k) + ":\nTitle: " + d.title + "\nContent: " + d.content + "\nURL: " + d.url + "\n"
  }

  /** One block per document, numbered from `first` in document order. */
  function ReferenceEntriesFrom(refs: seq<RefDoc>, first: nat): (r: seq<string>)
    ensures |r| == |refs|
    ensures forall i :: 0 <= i < |refs| ==> r[i] == ReferenceEntry(first + i, refs[i])
  {
    if refs == [] then [] else [ReferenceEntry(first, refs[0])] + ReferenceEntriesFrom(refs[1..], first + 1)
  }

  /** The prompt sent to the completion service. */
  function Prompt(article: Row, refs: seq<RefDoc>): (r: string)
    ensures PromptIntro + article.title <= r
  {
    PromptIntro + article.title + "\nContent: " + article.content + "\n\nReference Articles:\n"
      + Join(ReferenceEntriesFrom(refs, 1), "\n") + PromptInstructions
  }

  /** Every reference appears in the prompt under its number, with its title, content and url. */
  lemma PromptNumbersReferences(article: Row, refs: seq<RefDoc>, i: nat)
    requires i < |refs|
    ensures var entry := ReferenceEntriesFrom(refs, 1)[i];
      entry == "\nReference " + NatToString(i + 1) + ":\nTitle: " + refs[i].title
        + "\nContent: " + refs[i].content + "\nURL: " + refs[i].url + "\n"
    ensures DigitsValue(NatToString(i + 1)) == i + 1
    ensures Contains(Prompt(article, refs), ReferenceEntriesFrom(refs, 1)[i])
  {
    NatToStringRoundTrip(i + 1);
    var entries := ReferenceEntriesFrom(refs, 1);
    JoinContainsPiece(entries, "\n", i);
    ContainsExtended(PromptIntro + article.title + "\nContent: " + article.content + "\n\nReference Articles:\n",
                     Join(entries, "\n"), PromptInstructions, entries[i]);
  }

  /** The completion's text, trimmed; `None` when the call failed or returned no text. */
  function Generated(completion: Option<string>): (r: Option<string>)
    ensures completion.None? <==> r.None?
    ensures r.Some? ==> r.value == JsTrim(completion.value)
  {
    match completion
    case None => None
    case Some(text) => Some(JsTrim(text))
  }

  /** The run goes on after generation exactly when the completion holds a character that is not whitespace. */
  lemma GeneratedUsable(completion: Option<string>)
    ensures (Generated(completion).Some? && Generated(completion).value != "") <==>
      (completion.Some? && exists i :: 0 <= i < |completion.value| && completion.value[i] !in JsWhitespace)
  {
  }
}
