/**
 * What the pipeline writes back: the `{title, url}` pairs of the reference
 * documents in scrape order, and the article body with a numbered
 * "## References" list appended.
 */
module Publish {
  import opened Text
  import opened Records
  import opened Extract

  /** The JSON body of the publish call. */
  datatype Payload = Payload(content: string, isUpdated: bool, references: seq<RefLink>)

  /** The `{title, url}` pair of each document, in the same order. */
  function Links(refs: seq<RefDoc>): (r: seq<RefLink>)
    ensures |r| == |refs|
    ensures forall i :: 0 <= i < |refs| ==> r[i] == RefLink(refs[i].title, refs[i].url)
  {
    if refs == [] then [] else Links(refs[..|refs| - 1]) + [RefLink(refs[|refs| - 1].title, refs[|refs| - 1].url)]
  }

  /** The publish body: the given content, the updated flag set, and the documents' links. */
  function PublishPayload(content: string, refs: seq<RefDoc>): (p: Payload)
    ensures p.content == content && p.isUpdated
    ensures |p.references| == |refs|
    ensures forall i :: 0 <= i < |refs| ==> p.references[i].title == refs[i].title && p.references[i].url == refs[i].url
  {
    Payload(content, true, Links(refs))
  }

  /** Line `k` of the list: `k. [title](url)`. */
  function ReferenceLine(k: nat, d: RefDoc): string {
    NatToString(k) + ". [" + d.title + "](" + d.url + ")"
  }

  /** One line per document, numbered from `first` in document order. */
  function ReferenceLinesFrom(refs: seq<RefDoc>, first: nat): (r: seq<string>)
    ensures |r| == |refs|
    ensures forall i :: 0 <= i < |refs| ==> r[i] == ReferenceLine(first + i, refs[i])
  {
    if refs == [] then [] else [ReferenceLine(first, refs[0])] + ReferenceLinesFrom(refs[1..], first + 1)
  }

  const ReferencesHeading: string := "\n\n## References\n"

  /** The suffix appended to the generated text. */
  function ReferencesSection(refs: seq<RefDoc>): string {
    ReferencesHeading + Join(ReferenceLinesFrom(refs, 1), "\n")
  }

  /** The body that is published: the generated text followed by its reference list. */
  function ContentWithReferences(updated: string, refs: seq<RefDoc>): (r: string)
    ensures updated <= r
    ensures r[|updated|..] == ReferencesSection(refs)
  {
    updated + ReferencesSection(refs)
  }

  predicate SingleLine(s: string) {
    '\n' !in s
  }

  /**
   * When no title or url holds a line break, the list after the heading splits
   * into exactly one line per document, the i-th numbered i + 1, in the same order.
   */
  lemma {:induction false} ReferenceListLines(refs: seq<RefDoc>)
    requires |refs| > 0
    requires forall i :: 0 <= i < |refs| ==> SingleLine(refs[i].title) && SingleLine(refs[i].url)
    ensures var lines := Split(ReferencesSection(refs)[|ReferencesHeading|..], '\n');
      |lines| == |refs| &&
      forall i :: 0 <= i < |refs| ==> lines[i] == NatToString(i + 1) + ". [" + refs[i].title + "](" + refs[i].url + ")"
  {
    var lines := ReferenceLinesFrom(refs, 1);
    forall i | 0 <= i < |lines| ensures SingleLine(lines[i]) {
      var number := NatToString(1 + i);
      assert lines[i] == number + ". [" + refs[i].title + "](" + refs[i].url + ")";
      assert forall c :: c in number ==> '0' <= c <= '9';
    }
    SplitJoin(lines, '\n');
  }

  /** Every line number reads back as its position plus one. */
  lemma ReferenceNumbering(refs: seq<RefDoc>, i: nat)
    requires i < |refs|
    ensures var line := ReferenceLinesFrom(refs, 1)[i];
      var number := NatToString(i + 1);
      number <= line && DigitsValue(number) == i + 1 && line[|number|..|number| + 3] == ". ["
  {
    NatToStringRoundTrip(i + 1);
  }
}
