# Proper-noun highlighting for a Ukrainian NER demo

The application takes Ukrainian text and runs a pretrained spaCy model over it.
The model returns entity spans. The application then builds two views of them:

- **Highlighted text** (`highlight_proper_nouns`). The spans are walked from last to
  first. Each span labelled `LOC`, `ORG`, `PER`, `MISC` or `GPE` has the text over its
  character offsets `[start_char, end_char)` replaced by
  `<span style='color:blue; font-weight:bold;'>` + the entity text + `</span>`.
  Walking backwards means a splice only changes text at or after its own start, so
  the offsets of the spans still to come stay valid.
- **Summary** (the list comprehension and join in `process_text`). It filters the
  spans by the same labels and renders each one as `"<text> (<label>)"`. The lines
  are joined with `"\n"` in their original order. If nothing qualifies, the summary
  is the fixed message `"Власні назви не знайдено."`.

The model is written in Dafny. The model's output (`doc.ents`) is a parameter
`ents: seq<Span>`, where `Span(start, end, text, category)` stands for spaCy's
`start_char`, `end_char`, `text` and `label_`. `category` is used because `label`
is a Dafny keyword.

Modules:

- `entities.dfy` (`Entities`): the span record, the label filter `Qualifying`, and
  the predicates for what the application trusts the model to deliver:
  - `Fits`: in bounds;
  - `Ordered`: sorted and non-overlapping;
  - `Anchored`: the reported text equals the slice it covers.
- `highlight.dfy` (`Highlight`): the highlighter.
  - `HighlightProperNouns` is a method with the source's backwards loop. It
    reassigns the working string.
  - Its specification function is `SpliceRightToLeft`.
  - The left-to-right reference is `Reference` / `Layout`. It interleaves the
    untouched gaps with the wrapped spans.
  - The lemmas prove that the loop and the reference agree, and state the length
    and erasure properties.
- `summary.dfy` (`Summary`): the summary as a pure function `ProperNounsSummary`.
  `SplitLines` is the inverse of `"\n".join` and is used to state what the summary
  contains.
- `process.dfy` (`Process`): `process_text`. It runs both views over one shared
  span sequence, and lemmas relate the two results.

Python slicing never fails: an offset past the end selects up to the end
(`Prefix`, `Suffix`). So the method has no precondition, and it is specified for
every span sequence. Sorting, non-overlap, bounds and text anchoring are never
checked by the code. They appear only as `requires` of the lemmas that depend on
them.

The code wraps `ent.text`, not the slice `text[start:end]`. The two agree only for
anchored spans. The agreement between the loop and the reference holds without
anchoring. With an arbitrary `ent.text` a splice can shorten the text, so
`HighlightLength` requires anchoring.

## Model

| member | source | states |
|---|---|---|
| Entities.Qualifying | spacy_ver.py:22-23 | a span is kept if and only if it is one of the given spans and its label is LOC, ORG, PER, MISC or GPE; no more spans come out than went in |
| Entities.QualifyingAppend | spacy_ver.py:20-24 | filtering distributes over concatenation, so the recognised spans keep their original relative order |
| Highlight.MarkupLengthValue | spacy_ver.py:13 | the emphasis markup around one entity is 51 characters (44 opening, 7 closing) |
| Highlight.HighlightProperNouns | spacy_ver.py:6-16 | the backwards loop computes the right-to-left splice of every recognised span. For in-bounds, sorted, non-overlapping spans this equals the left-to-right reference (gaps copied, recognised spans wrapped). With no recognised span, including an empty span sequence, the text comes back unchanged |
| Highlight.NothingQualifiesUnchanged | spacy_ver.py:9-10 | spans whose label is outside the recognised set are skipped: if none is recognised, the text is unchanged |
| Highlight.SingleSpan | spacy_ver.py:11-15 | for one recognised in-bounds span the output is exactly text[..start] + opening markup + span text + closing markup + text[end..] |
| Highlight.SpliceFrame | spacy_ver.py:11-15 | splicing spans that all lie inside a prefix leaves everything after that prefix untouched, which is why the reverse walk keeps offsets valid |
| Highlight.RightToLeftMatchesReference | spacy_ver.py:9-15 | for in-bounds, sorted, non-overlapping spans, the right-to-left splice equals the left-to-right build of untouched gaps interleaved with wrapped recognised spans |
| Highlight.HighlightLength | spacy_ver.py:11-15 | for spans that also carry the text they cover, the output is the input length plus 51 characters per recognised span |
| Highlight.HighlightErasesToText | spacy_ver.py:11-15 | for such spans the output is the reference layout, and the same layout with empty markup is exactly the input: text outside the markup is unchanged and in order |
| Summary.SplitJoin | spacy_ver.py:25 | splitting the "\n"-joined lines on "\n" gives back exactly those lines when none contains a line break |
| Summary.JoinEndsWithLastLine | spacy_ver.py:25 | the joined text ends with the last character of the last line: no trailing separator |
| Summary.LineIsSingle | spacy_ver.py:21 | a "<text> (<label>)" line for a recognised span has no line break if the entity text has none |
| Summary.NotFoundIffNothingQualifies | spacy_ver.py:25 | the summary is the fixed "not found" message if and only if no span is recognised (in particular when there are no spans) |
| Summary.SummaryLines | spacy_ver.py:20-25 | with at least one recognised span, the summary splits into exactly one "<text> (<label>)" line per recognised span, in the original order |
| Process.ProcessText | spacy_ver.py:18-27 | both results come from one span sequence; for well-formed spans the summary says "not found" exactly when the highlighted text equals the input; for well-formed spans whose texts contain no line break and a summary other than "not found", the highlighted text grows by 51 characters per summary line |
| Process.NotFoundIffUnchanged | spacy_ver.py:18-27 | for well-formed spans the summary is the "not found" message if and only if highlighting leaves the text unchanged |
| Process.OneLinePerWrappedSpan | spacy_ver.py:18-27 | for well-formed spans whose texts have no line break and at least one recognised span: the highlighted text is the reference layout that wraps exactly the recognised spans, the summary splits into exactly one line per recognised span in the same order, and the highlighter adds one markup pair (51 characters) per summary line |
| Process.RomeExample | spacy_ver.py:6-25 | "Я відвідав Рим." with the span (11, 14, "Рим", LOC) highlights to "Я відвідав " + markup-wrapped "Рим" + "." and summarises to "Рим (LOC)" |

## Left out

- `spacy.load("uk_core_news_sm")` and both `nlp(text)` calls (spacy_ver.py:4, 7, 19) are foreign ML inference. The model replaces them with the span sequence `ents`. The source calls `nlp` twice on the same text and assumes both calls return the same spans; `ProcessText` passes one shared sequence.
- The `gr.update` wrappers and the status title that `process_text` returns (spacy_ver.py:28-33) are UI display values.
- The Gradio layout, examples, event binding (spacy_ver.py:57-111) and `demo.launch()` (spacy_ver.py:113) are UI plumbing and server start-up.
- The `description` and `instruction` strings (spacy_ver.py:35-56) are static display text with no behaviour.
- Overlapping or unsorted spans: the method accepts them and follows Python's slicing rules, but no property is proved about that outcome. The agreement lemmas require sorted, non-overlapping, in-bounds spans.
- Characters: a Dafny `char` stands for one Python code point. spaCy's character offsets count code points, and so do the model's offsets.
- Summary.SummaryLines: requires that no entity text contains a line break. With a line break inside an entity, the joined text splits into more lines than there are entities.
