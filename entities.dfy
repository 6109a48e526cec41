/** Entity spans as the named-entity model hands them to the application,
    and the label filter that both the highlighter and the summary apply. */
module Entities {

  /** One recognised entity: character offsets [start, end) into the analysed
      text, the surface text the model reports for it, and its category label (spaCy's `label_`). */
  datatype Span = Span(start: nat, end: nat, text: string, category: string)

  /** The categories the application treats as proper nouns. */
  const RecognizedLabels: set<string> := {"LOC", "ORG", "PER", "MISC", "GPE"}

  predicate Qualifies(category: string) {
    category in RecognizedLabels
  }

  /** The spans whose label is recognised, in their original order. */
  function Qualifying(ents: seq<Span>): (q: seq<Span>)
    ensures |q| <= |ents|
    ensures forall e :: e in q <==> e in ents && Qualifies(e.category)
  {
    if ents == [] then []
    else
      var rest := Qualifying(ents[..|ents| - 1]);
      var last := ents[|ents| - 1];
      assert ents == ents[..|ents| - 1] + [last];
      if Qualifies(last.category) then rest + [last] else rest
  }

  /** Every span lies inside [pos, |text|] and does not end before it starts. */
  predicate Fits(text: string, ents: seq<Span>, pos: nat) {
    pos <= |text| &&
    forall i :: 0 <= i < |ents| ==> pos <= ents[i].start <= ents[i].end <= |text|
  }

  /** Sorted by start and pairwise non-overlapping (touching spans allowed). */
  predicate Ordered(ents: seq<Span>) {
    forall i, j :: 0 <= i < j < |ents| ==> ents[i].end <= ents[j].start
  }

  /** Every span is non-empty and its reported text is the slice of `text` it covers. */
  predicate Anchored(text: string, ents: seq<Span>) {
    forall i :: 0 <= i < |ents| ==>
      ents[i].start < ents[i].end <= |text| &&
      ents[i].text == text[ents[i].start..ents[i].end]
  }

  /** What the application trusts the model to deliver. */
  predicate WellFormed(text: string, ents: seq<Span>) {
    Fits(text, ents, 0) && Ordered(ents) && Anchored(text, ents)
  }

  /** Filtering distributes over concatenation: it keeps the relative order. */
  lemma {:induction false} QualifyingAppend(a: seq<Span>, b: seq<Span>)
    ensures Qualifying(a + b) == Qualifying(a) + Qualifying(b)
    decreases |b|
  {
    if b == [] {
      assert a + b == a;
    } else {
      var b' := b[..|b| - 1];
      assert (a + b)[..|a + b| - 1] == a + b';
      assert b[..|b| - 1] == b';
      QualifyingAppend(a, b');
    }
  }

  /** The filtered spans stay within the bounds of the spans they come from. */
  lemma QualifyingFits(text: string, ents: seq<Span>, pos: nat)
    requires Fits(text, ents, pos)
    ensures Fits(text, Qualifying(ents), pos)
  {
    var q := Qualifying(ents);
    forall i | 0 <= i < |q| ensures pos <= q[i].start <= q[i].end <= |text| {
      assert q[i] in ents;
    }
  }

  /** The filtered spans still carry the text they cover. */
  lemma QualifyingAnchored(text: string, ents: seq<Span>)
    requires Anchored(text, ents)
    ensures Anchored(text, Qualifying(ents))
  {
    var q := Qualifying(ents);
    forall i | 0 <= i < |q|
      ensures q[i].start < q[i].end <= |text| && q[i].text == text[q[i].start..q[i].end]
    {
      assert q[i] in ents;
    }
  }

  /** Filtering a sorted, non-overlapping sequence keeps it sorted and non-overlapping. */
  lemma {:induction false} QualifyingOrdered(ents: seq<Span>)
    requires Ordered(ents)
    ensures Ordered(Qualifying(ents))
    decreases |ents|
  {
    if ents != [] {
      var init := ents[..|ents| - 1];
      var last := ents[|ents| - 1];
      QualifyingOrdered(init);
      var q, r := Qualifying(ents), Qualifying(init);
      forall i, j | 0 <= i < j < |q| ensures q[i].end <= q[j].start {
        if j < |r| {
          assert q[i] == r[i] && q[j] == r[j];
        } else {
          assert q[i] == r[i] && r[i] in init && q[j] == last;
          var k :| 0 <= k < |init| && init[k] == r[i];
          assert ents[k] == init[k];
        }
      }
    }
  }

  lemma QualifyingWellFormed(text: string, ents: seq<Span>)
    requires WellFormed(text, ents)
    ensures WellFormed(text, Qualifying(ents))
  {
    QualifyingFits(text, ents, 0);
    QualifyingOrdered(ents);
    QualifyingAnchored(text, ents);
  }
}
