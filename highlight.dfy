/** The span highlighter: splices emphasis markup around every recognised
    entity, walking the spans from the last to the first so that the offsets
    of the spans not yet processed keep pointing into unchanged text. */
module Highlight {
  import opened Entities

  const Open: string := "<span style='color:blue; font-weight:bold;'>"
  const Close: string := "</span>"

  /** Characters the markup adds around one entity. */
  const MarkupLength: nat := |Open| + |Close|

  lemma MarkupLengthValue()
    ensures MarkupLength == 51
  {
    assert |Open| == 44 && |Close| == 7;
  }

  /** Python's `s[:k]`: an offset past the end selects the whole string. */
  function Prefix(s: string, k: nat): string {
    if k <= |s| then s[..k] else s
  }

  /** Python's `s[k:]`: an offset past the end selects nothing. */
  function Suffix(s: string, k: nat): string {
    if k <= |s| then s[k..] else ""
  }

  /** One iteration of the loop: a recognised span is replaced by its wrapped text. */
  function Splice(w: string, e: Span): string {
    if Qualifies(e.category) then Prefix(w, e.start) + Open + e.text + Close + Suffix(w, e.end)
    else w
  }

  /** The loop's effect: splice the last span first, then the rest. */
  function SpliceRightToLeft(w: string, ents: seq<Span>): string
    decreases |ents|
  {
    if ents == [] then w
    else SpliceRightToLeft(Splice(w, ents[|ents| - 1]), ents[..|ents| - 1])
  }

  /** Python's `s[i:j]` for the offsets the reference produces; empty otherwise. */
  function Gap(s: string, i: nat, j: nat): string {
    if i <= j <= |s| then s[i..j] else ""
  }

  /** Left-to-right reference: from `pos` on, the untouched gaps of `text`
      interleaved with the text of each mark between `open` and `close`. It is
      meant for marks that fit inside `text` in order (Fits and Ordered). */
  function Layout(text: string, marks: seq<Span>, pos: nat, open: string, close: string): string
    decreases |marks|
  {
    if marks == [] then Suffix(text, pos)
    else
      Gap(text, pos, marks[0].start) + open + marks[0].text + close
      + Layout(text, marks[1..], marks[0].end, open, close)
  }

  /** The highlighted text as a reader expects it: the recognised spans wrapped in
      markup, everything between them copied from the input. */
  function Reference(text: string, ents: seq<Span>): string {
    Layout(text, Qualifying(ents), 0, Open, Close)
  }

  /** highlight_proper_nouns, with the model's `doc.ents` passed in as `ents`. */
  method HighlightProperNouns(text: string, ents: seq<Span>) returns (highlighted: string)
    ensures highlighted == SpliceRightToLeft(text, ents)
    ensures Fits(text, ents, 0) && Ordered(ents) ==> highlighted == Reference(text, ents)
    ensures (forall i :: 0 <= i < |ents| ==> !Qualifies(ents[i].category)) ==> highlighted == text
  {
    highlighted := text;
    var i := |ents|;
    assert ents[..i] == ents;
    while i > 0
      invariant 0 <= i <= |ents|
      invariant SpliceRightToLeft(highlighted, ents[..i]) == SpliceRightToLeft(text, ents)
    {
      i := i - 1;
      var ent := ents[i];
      assert ents[..i + 1][..i] == ents[..i];
      if Qualifies(ent.category) {
        highlighted := Prefix(highlighted, ent.start) + Open + ent.text + Close + Suffix(highlighted, ent.end);
      }
    }
    assert ents[..0] == [];
    if Fits(text, ents, 0) && Ordered(ents) {
      RightToLeftMatchesReference(text, ents);
    }
    if forall i :: 0 <= i < |ents| ==> !Qualifies(ents[i].category) {
      NothingQualifiesUnchanged(text, ents);
    }
  }

  /** A span whose category is not recognised is skipped, so spans of that kind alone
      leave the text as it was. */
  lemma {:induction false} NothingQualifiesUnchanged(w: string, ents: seq<Span>)
    requires forall i :: 0 <= i < |ents| ==> !Qualifies(ents[i].category)
    ensures SpliceRightToLeft(w, ents) == w
    decreases |ents|
  {
    if ents != [] {
      NothingQualifiesUnchanged(w, ents[..|ents| - 1]);
    }
  }

  /** One recognised span: the text before it, the wrapped entity, the text after it. */
  lemma SingleSpan(text: string, e: Span)
    requires Qualifies(e.category) && e.start <= e.end <= |text|
    ensures SpliceRightToLeft(text, [e]) == text[..e.start] + Open + e.text + Close + text[e.end..]
  {
    assert [e][..0] == [];
  }

  /** Splicing spans that all end within `a` never touches what follows `a`. */
  lemma {:induction false} SpliceFrame(a: string, b: string, ents: seq<Span>)
    requires Fits(a, ents, 0) && Ordered(ents)
    ensures SpliceRightToLeft(a + b, ents) == SpliceRightToLeft(a, ents) + b
    decreases |ents|
  {
    if ents != [] {
      var init, e := ents[..|ents| - 1], ents[|ents| - 1];
      var a' := Splice(a, e);
      if Qualifies(e.category) {
        assert (a + b)[..e.start] == a[..e.start];
        assert (a + b)[e.end..] == a[e.end..] + b;
      }
      assert Splice(a + b, e) == a' + b;
      assert |a'| >= e.start;
      forall i | 0 <= i < |init| ensures init[i].start <= init[i].end <= |a'| {
        assert init[i] == ents[i];
      }
      SpliceFrame(a', b, init);
    }
  }

  lemma SliceSplit(s: string, i: nat, j: nat, k: nat)
    requires i <= j <= k <= |s|
    ensures s[i..] == s[i..j] + s[j..k] + s[k..]
  {
  }

  lemma SliceOfPrefix(s: string, k: nat, i: nat, j: nat)
    requires i <= j <= k <= |s|
    ensures s[..k][i..j] == s[i..j]
  {
  }

  /** The marks after the first one start no earlier than the first one ends, and
      keep whatever bound or anchoring held of all the marks. */
  lemma TailOfMarks(text: string, marks: seq<Span>, pos: nat)
    requires Fits(text, marks, pos) && Ordered(marks) && marks != []
    ensures Fits(text, marks[1..], marks[0].end) && Ordered(marks[1..])
    ensures forall i :: 0 <= i < |marks[1..]| ==> marks[1..][i] == marks[i + 1]
    ensures Anchored(text, marks) ==> Anchored(text, marks[1..])
  {
    var rest := marks[1..];
    forall i | 0 <= i < |rest| ensures rest[i] == marks[i + 1] && marks[0].end <= rest[i].start { }
  }

  /** Building left to right, the last mark and everything after it can be split off. */
  lemma {:induction false} LayoutSnoc(text: string, marks: seq<Span>, e: Span, pos: nat, open: string, close: string)
    requires Fits(text, marks, pos) && Ordered(marks)
    requires pos <= e.start <= e.end <= |text|
    requires forall i :: 0 <= i < |marks| ==> marks[i].end <= e.start
    ensures Layout(text, marks + [e], pos, open, close)
         == Layout(text[..e.start], marks, pos, open, close) + (open + e.text + close + text[e.end..])
    decreases |marks|
  {
    var tail := open + e.text + close + text[e.end..];
    if marks == [] {
      assert [] + [e] == [e] && [e][1..] == [];
      assert text[..e.start][pos..] == text[pos..e.start];
    } else {
      var all, m, rest := marks + [e], marks[0], marks[1..];
      assert all[0] == m && all[1..] == rest + [e];
      TailOfMarks(text, marks, pos);
      LayoutSnoc(text, rest, e, m.end, open, close);
      var head := Gap(text, pos, m.start) + open + m.text + close;
      var x := Layout(text[..e.start], rest, m.end, open, close);
      assert Layout(text, all, pos, open, close) == head + (x + tail);
      assert Gap(text[..e.start], pos, m.start) == Gap(text, pos, m.start) by {
        SliceOfPrefix(text, e.start, pos, m.start);
      }
      assert Layout(text[..e.start], marks, pos, open, close) == head + x;
      assert head + (x + tail) == (head + x) + tail;
    }
  }

  /** The spans before the last one end where the last one starts, at the latest. */
  lemma InitPlaced(text: string, ents: seq<Span>)
    requires Fits(text, ents, 0) && Ordered(ents) && ents != []
    ensures Fits(text, ents[..|ents| - 1], 0) && Ordered(ents[..|ents| - 1])
    ensures Fits(text[..ents[|ents| - 1].start], ents[..|ents| - 1], 0)
  {
    var init, e := ents[..|ents| - 1], ents[|ents| - 1];
    forall i | 0 <= i < |init| ensures init[i] == ents[i] && init[i].end <= e.start { }
  }

  /** The reference for spans ending in a recognised one: the reference for the others,
      over the text before it, followed by the wrapped span and the rest of the text. */
  lemma ReferenceSnoc(text: string, ents: seq<Span>)
    requires Fits(text, ents, 0) && Ordered(ents) && ents != []
    requires Qualifies(ents[|ents| - 1].category)
    ensures Reference(text, ents)
         == Reference(text[..ents[|ents| - 1].start], ents[..|ents| - 1])
            + (Open + ents[|ents| - 1].text + Close + text[ents[|ents| - 1].end..])
  {
    var init, e := ents[..|ents| - 1], ents[|ents| - 1];
    InitPlaced(text, ents);
    var q := Qualifying(init);
    assert Qualifying(ents) == q + [e];
    QualifyingFits(text, init, 0);
    QualifyingOrdered(init);
    forall i | 0 <= i < |q| ensures q[i].end <= e.start {
      assert q[i] in init;
    }
    LayoutSnoc(text, q, e, 0, Open, Close);
  }

  /** The reverse-order loop builds the same string as the left-to-right reference:
      each splice changes text only at or after its own start, so the offsets of the
      spans still to come stay valid. */
  lemma {:induction false} RightToLeftMatchesReference(text: string, ents: seq<Span>)
    requires Fits(text, ents, 0) && Ordered(ents)
    ensures SpliceRightToLeft(text, ents) == Reference(text, ents)
    decreases |ents|
  {
    if ents == [] {
      assert Qualifying(ents) == [];
    } else {
      var init, e := ents[..|ents| - 1], ents[|ents| - 1];
      InitPlaced(text, ents);
      if Qualifies(e.category) {
        var a, b := text[..e.start], Open + e.text + Close + text[e.end..];
        calc {
          SpliceRightToLeft(text, ents);
          SpliceRightToLeft(Splice(text, e), init);
          { assert Splice(text, e) == a + b; }
          SpliceRightToLeft(a + b, init);
          { SpliceFrame(a, b, init); }
          SpliceRightToLeft(a, init) + b;
          { RightToLeftMatchesReference(a, init); }
          Reference(a, init) + b;
          { ReferenceSnoc(text, ents); }
          Reference(text, ents);
        }
      } else {
        assert Qualifying(ents) == Qualifying(init);
        RightToLeftMatchesReference(text, init);
      }
    }
  }

  /** Given text-anchored marks, the layout grows by one markup pair per mark. */
  lemma {:induction false} LayoutLength(text: string, marks: seq<Span>, pos: nat, open: string, close: string)
    requires Fits(text, marks, pos) && Ordered(marks) && Anchored(text, marks)
    ensures |Layout(text, marks, pos, open, close)| == |text| - pos + (|open| + |close|) * |marks|
    decreases |marks|
  {
    if marks != [] {
      var m, rest := marks[0], marks[1..];
      TailOfMarks(text, marks, pos);
      LayoutLength(text, rest, m.end, open, close);
      assert |m.text| == m.end - m.start;
      assert (|open| + |close|) * |marks| == (|open| + |close|) * |rest| + |open| + |close|;
    }
  }

  /** Dropping the markup from the layout gives back the text it was built from. */
  lemma {:induction false} LayoutWithoutMarkup(text: string, marks: seq<Span>, pos: nat)
    requires Fits(text, marks, pos) && Ordered(marks) && Anchored(text, marks)
    ensures Layout(text, marks, pos, "", "") == text[pos..]
    decreases |marks|
  {
    if marks != [] {
      var m, rest := marks[0], marks[1..];
      TailOfMarks(text, marks, pos);
      LayoutWithoutMarkup(text, rest, m.end);
      var gap, tail := text[pos..m.start], text[m.end..];
      assert Layout(text, marks, pos, "", "") == gap + m.text + tail by {
        assert Layout(text, marks, pos, "", "") == gap + "" + m.text + "" + tail;
      }
      assert m.text == text[m.start..m.end];
      SliceSplit(text, pos, m.start, m.end);
    }
  }

  /** The highlighted text is the input plus one markup pair per recognised span. */
  lemma HighlightLength(text: string, ents: seq<Span>)
    requires WellFormed(text, ents)
    ensures |SpliceRightToLeft(text, ents)| == |text| + MarkupLength * |Qualifying(ents)|
  {
    RightToLeftMatchesReference(text, ents);
    QualifyingWellFormed(text, ents);
    LayoutLength(text, Qualifying(ents), 0, Open, Close);
  }

  /** Outside the markup the highlighted text is the input, in its original order:
      the same layout with empty markup is the input itself. */
  lemma HighlightErasesToText(text: string, ents: seq<Span>)
    requires WellFormed(text, ents)
    ensures SpliceRightToLeft(text, ents) == Layout(text, Qualifying(ents), 0, Open, Close)
    ensures Layout(text, Qualifying(ents), 0, "", "") == text
  {
    RightToLeftMatchesReference(text, ents);
    QualifyingWellFormed(text, ents);
    LayoutWithoutMarkup(text, Qualifying(ents), 0);
  }
}
