/**
 * The post-processing chain that turns the text of a generated response into Mermaid source
 * (main.js:180-188): strip the code fences, decode entities, extract the diagram, decode
 * again, drop byte-order marks and trim, and sanitize the result when it is a flowchart.
 */
module Pipeline {
  import opened Wrappers
  import opened JsText
  import Fences
  import Entities
  import Extract
  import Label
  import Flowchart

  /** `/^(flowchart|graph)\b/i`: the text opens with one of the two keywords, in any case,
      and no word character follows it. */
  predicate FlowchartHeader(s: string)
  {
    (MatchesAt(s, 0, "flowchart", true) && !WordAt(s, 9))
    || (MatchesAt(s, 0, "graph", true) && !WordAt(s, 5))
  }

  /** The text before the flowchart test: main.js:180-184. */
  function Cleaned(rawText: Option<string>): (r: string)
    ensures Trimmed(r)
    ensures forall c :: c in r ==> !Label.IsBom(c)
  {
    var stripped := Fences.StripMarkdownCodeFences(rawText);
    var decoded := Entities.DecodeHtmlEntities(Some(stripped));
    var extracted := Extract.ExtractMermaidDiagram(Some(decoded));
    var redecoded := Entities.DecodeHtmlEntities(Some(extracted));
    Trim(RemoveChars(redecoded, Label.IsBom))
  }

  /** main.js:180-188 as a whole. */
  function PostProcess(rawText: Option<string>): (r: string)
  {
    var cleaned := Cleaned(rawText);
    if FlowchartHeader(cleaned) then Flowchart.Sanitized(Some(cleaned)) else cleaned
  }

  /** Whatever the response, the text handed to the client is trimmed and holds no byte-order
      mark; a text that does not open as a flowchart is handed over as cleaned. */
  lemma PostProcessShape(rawText: Option<string>)
    ensures Trimmed(PostProcess(rawText))
    ensures forall c :: c in PostProcess(rawText) ==> !Label.IsBom(c)
    ensures !FlowchartHeader(Cleaned(rawText)) ==> PostProcess(rawText) == Cleaned(rawText)
  {
    var cleaned := Cleaned(rawText);
    if FlowchartHeader(cleaned) {
      Flowchart.SanitizedBalanced(Some(cleaned));
      Flowchart.SanitizedClean(Some(cleaned));
    }
  }

  /** A flowchart comes out sanitized: no carriage return, semicolon or special space, and an
      even number of double quotes on every line. */
  lemma PostProcessFlowchart(rawText: Option<string>)
    requires FlowchartHeader(Cleaned(rawText))
    ensures Flowchart.Clean(PostProcess(rawText))
    ensures Flowchart.EvenLines(PostProcess(rawText))
  {
    var cleaned := Cleaned(rawText);
    Flowchart.SanitizedBalanced(Some(cleaned));
    Flowchart.SanitizedClean(Some(cleaned));
  }

  /** A missing response text gives the empty diagram. */
  lemma PostProcessNone()
    ensures PostProcess(None) == ""
  {
    CleanedNone();
    NoHeaderInEmpty();
  }

  /** Every step of the cleaning maps the empty text to itself. */
  lemma CleanedNone()
    ensures Cleaned(None) == ""
  {
    var stripped := Fences.StripMarkdownCodeFences(None);
    var decoded := Entities.DecodeHtmlEntities(Some(stripped));
    assert |decoded| <= |stripped| == 0;
    EmptyExtract();
    var redecoded := Entities.DecodeHtmlEntities(Some(""));
    assert |RemoveChars(redecoded, Label.IsBom)| <= |redecoded| == 0;
  }

  lemma NoHeaderInEmpty()
    ensures !FlowchartHeader("")
  {
    assert !MatchesAt("", 0, "flowchart", true);
    assert !MatchesAt("", 0, "graph", true);
  }

  /** Nothing is extracted from an empty text. */
  lemma EmptyExtract()
    ensures Extract.ExtractMermaidDiagram(Some("")) == ""
  {
    var raw := Extract.CleanForExtract(Some(""));
    assert Entities.DecodeHtmlEntities(Some("")) == "";
    assert ReplaceAll("", "```mermaid", "", true) == "";
    assert ReplaceAll("", "```", "") == "";
    assert raw == "";
    forall i ensures !Extract.DiagramStart(raw, i, Extract.Keywords) {
      if i == 0 {
        Extract.KeywordsWellFormed();
      }
    }
  }
}
