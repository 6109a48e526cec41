/** The list of proper nouns shown beside the highlighted text: one
    "<text> (<category>)" line per recognised span, in the spans' order. */
module Summary {
  import opened Entities

  /** Shown when no span is recognised ("No proper nouns found."). */
  const NotFound: string := "Власні назви не знайдено."

  /** How one recognised span is listed. */
  function Line(e: Span): string {
    e.text + " (" + e.category + ")"
  }

  function Lines(ents: seq<Span>): seq<string> {
    seq(|ents|, i requires 0 <= i < |ents| => Line(ents[i]))
  }

  /** Python's `"\n".join(lines)`: a separator between lines, none after the last. */
  function JoinLines(lines: seq<string>): string
    decreases |lines|
  {
    if |lines| == 0 then ""
    else if |lines| == 1 then lines[0]
    else lines[0] + "\n" + JoinLines(lines[1..])
  }

  /** Python's `s.split("\n")`, the inverse of JoinLines. */
  function SplitLines(s: string): (parts: seq<string>)
    ensures |parts| >= 1
    decreases |s|
  {
    if s == [] then [""]
    else if s[0] == '\n' then [""] + SplitLines(s[1..])
    else
      var rest := SplitLines(s[1..]);
      [[s[0]] + rest[0]] + rest[1..]
  }

  predicate SingleLine(s: string) {
    '\n' !in s
  }

  /** The summary part of process_text, with the model's `doc.ents` passed in as `ents`. */
  function ProperNounsSummary(ents: seq<Span>): string {
    var q := Qualifying(ents);
    if q == [] then NotFound else JoinLines(Lines(q))
  }

  lemma {:induction false} SplitSingleLine(a: string)
    requires SingleLine(a)
    ensures SplitLines(a) == [a]
    decreases |a|
  {
    if a != [] {
      SplitSingleLine(a[1..]);
      assert [a[0]] + a[1..] == a;
    }
  }

  lemma {:induction false} SplitAfterLine(a: string, b: string)
    requires SingleLine(a)
    ensures SplitLines(a + "\n" + b) == [a] + SplitLines(b)
    decreases |a|
  {
    var s := a + "\n" + b;
    if a == [] {
      assert s[0] == '\n' && s[1..] == b;
    } else {
      assert s[0] == a[0];
      assert s[1..] == a[1..] + "\n" + b;
      SplitAfterLine(a[1..], b);
      assert [a[0]] + a[1..] == a;
    }
  }

  /** Splitting the joined lines gives back exactly the lines, provided none of
      them contains a line break itself. */
  lemma {:induction false} SplitJoin(lines: seq<string>)
    requires |lines| >= 1
    requires forall i :: 0 <= i < |lines| ==> SingleLine(lines[i])
    ensures SplitLines(JoinLines(lines)) == lines
    decreases |lines|
  {
    if |lines| == 1 {
      SplitSingleLine(lines[0]);
    } else {
      SplitAfterLine(lines[0], JoinLines(lines[1..]));
      SplitJoin(lines[1..]);
      assert [lines[0]] + lines[1..] == lines;
    }
  }

  /** The joined text ends with the last character of the last line. */
  lemma {:induction false} JoinEndsWithLastLine(lines: seq<string>)
    requires |lines| >= 1 && |lines[|lines| - 1]| >= 1
    ensures var j, l := JoinLines(lines), lines[|lines| - 1]; |j| >= 1 && j[|j| - 1] == l[|l| - 1]
    decreases |lines|
  {
    if |lines| > 1 {
      JoinEndsWithLastLine(lines[1..]);
    }
  }

  /** A recognised span whose text has no line break is listed on one line. */
  lemma LineIsSingle(e: Span)
    requires Qualifies(e.category) && SingleLine(e.text)
    ensures SingleLine(Line(e))
  {
    var c := e.category;
    assert SingleLine(c) by {
      assert c == "LOC" || c == "ORG" || c == "PER" || c == "MISC" || c == "GPE";
    }
    assert SingleLine(" (") && SingleLine(")");
    var l := Line(e);
    forall k | 0 <= k < |l| ensures l[k] != '\n' {
      if k < |e.text| {
        assert l[k] == e.text[k];
      } else if k < |e.text| + 2 {
        assert l[k] == " ("[k - |e.text|];
      } else if k < |e.text| + 2 + |c| {
        assert l[k] == c[k - |e.text| - 2];
      } else {
        assert l[k] == ')';
      }
    }
  }

  /** The "not found" message appears exactly when no span is recognised: a list of
      lines always ends with the ")" closing its last category. */
  lemma NotFoundIffNothingQualifies(ents: seq<Span>)
    ensures ProperNounsSummary(ents) == NotFound <==> Qualifying(ents) == []
  {
    var q := Qualifying(ents);
    if q != [] {
      var lines := Lines(q);
      var last := Line(q[|q| - 1]);
      assert lines[|lines| - 1] == last;
      assert last[|last| - 1] == ')';
      JoinEndsWithLastLine(lines);
      assert NotFound[|NotFound| - 1] == '.';
    }
  }

  /** Recognised spans whose text has no line break give lines without line breaks. */
  lemma SummaryLinesAreSingle(ents: seq<Span>)
    requires forall i :: 0 <= i < |ents| ==> SingleLine(ents[i].text)
    ensures forall i :: 0 <= i < |Qualifying(ents)| ==> SingleLine(Lines(Qualifying(ents))[i])
  {
    var q := Qualifying(ents);
    forall i | 0 <= i < |q| ensures SingleLine(Lines(q)[i]) {
      assert q[i] in ents;
      var k :| 0 <= k < |ents| && ents[k] == q[i];
      LineIsSingle(q[i]);
    }
  }

  /** With at least one recognised span, the summary holds exactly one line per
      recognised span, in the original order, and no trailing line break. */
  lemma SummaryLines(ents: seq<Span>)
    requires Qualifying(ents) != []
    requires forall i :: 0 <= i < |ents| ==> SingleLine(ents[i].text)
    ensures SplitLines(ProperNounsSummary(ents)) == Lines(Qualifying(ents))
  {
    SummaryLinesAreSingle(ents);
    SplitJoin(Lines(Qualifying(ents)));
  }
}
