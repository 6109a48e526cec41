/** process_text: runs the highlighter and the summary over the same entity
    spans and returns the two texts the page displays. */
module Process {
  import opened Entities
  import opened Highlight
  import opened Summary

  /** process_text, with the model's `doc.ents` passed in as `ents`; the status
      title it also returns is fixed display text. */
  method ProcessText(text: string, ents: seq<Span>) returns (highlighted: string, properNouns: string)
    ensures highlighted == SpliceRightToLeft(text, ents)
    ensures properNouns == ProperNounsSummary(ents)
    ensures WellFormed(text, ents) ==> (properNouns == NotFound <==> highlighted == text)
    ensures WellFormed(text, ents) && properNouns != NotFound
            && (forall i :: 0 <= i < |ents| ==> SingleLine(ents[i].text))
            ==> |highlighted| == |text| + MarkupLength * |SplitLines(properNouns)|
  {
    properNouns := ProperNounsSummary(ents);
    highlighted := HighlightProperNouns(text, ents);
    if WellFormed(text, ents) {
      NotFoundIffUnchanged(text, ents);
      if properNouns != NotFound && forall i :: 0 <= i < |ents| ==> SingleLine(ents[i].text) {
        OneLinePerWrappedSpan(text, ents);
      }
    }
  }

  /** Both views use the same label filter: the summary reports that nothing was
      found exactly when the highlighter leaves the text as it was. */
  lemma NotFoundIffUnchanged(text: string, ents: seq<Span>)
    requires WellFormed(text, ents)
    ensures ProperNounsSummary(ents) == NotFound <==> SpliceRightToLeft(text, ents) == text
  {
    NotFoundIffNothingQualifies(ents);
    var q := Qualifying(ents);
    if q == [] {
      forall i | 0 <= i < |ents| ensures !Qualifies(ents[i].category) {
        assert ents[i] in ents;
      }
      NothingQualifiesUnchanged(text, ents);
    } else {
      HighlightLength(text, ents);
      MarkupLengthValue();
      assert |SpliceRightToLeft(text, ents)| > |text|;
    }
  }

  /** Both views use the same label filter: the highlighted text wraps exactly the
      recognised spans, the summary lists exactly those spans, one line each and in
      the same order, and the highlighter adds one markup pair per summary line. */
  lemma OneLinePerWrappedSpan(text: string, ents: seq<Span>)
    requires WellFormed(text, ents)
    requires ProperNounsSummary(ents) != NotFound
    requires forall i :: 0 <= i < |ents| ==> SingleLine(ents[i].text)
    ensures var q := Qualifying(ents);
      SpliceRightToLeft(text, ents) == Layout(text, q, 0, Open, Close)
      && SplitLines(ProperNounsSummary(ents)) == Lines(q)
    ensures |SpliceRightToLeft(text, ents)| == |text| + MarkupLength * |SplitLines(ProperNounsSummary(ents))|
  {
    NotFoundIffNothingQualifies(ents);
    HighlightErasesToText(text, ents);
    SummaryLines(ents);
    HighlightLength(text, ents);
  }

  /** A sentence with one location: "I visited Rome." */
  lemma RomeExample()
    ensures SpliceRightToLeft("Я відвідав Рим.", [Span(11, 14, "Рим", "LOC")])
         == "Я відвідав " + "<span style='color:blue; font-weight:bold;'>" + "Рим" + "</span>" + "."
    ensures ProperNounsSummary([Span(11, 14, "Рим", "LOC")]) == "Рим (LOC)"
  {
    var text, e := "Я відвідав Рим.", Span(11, 14, "Рим", "LOC");
    SingleSpan(text, e);
    assert text[..11] == "Я відвідав ";
    assert text[14..] == ".";
    assert Qualifying([e]) == [e] by {
      assert [e][..0] == [];
    }
  }
}
