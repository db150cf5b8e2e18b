/** The part of md2puml's driver that decides what is sent for diagram generation:
    extract the "Data Model & Persistence" and "Primary Flows" sections, keep the
    non-empty ones, join them with a blank line, and stop with an error before any
    generation when nothing is left. Reading the input file, writing the output
    file and the call to the chat-completion service are not modelled as such: the
    document is a parameter and the service is the function `generate`. */
module Driver {
  import opened Builtins
  import opened Extractor

  const DataModelTitle := "Data Model & Persistence"
  const FlowsTitle := "Primary Flows"
  const ParagraphBreak := "\n\n"

  /** What the chat-completion service gives back: the reply text, or an error
      (authentication, network, a reply without content). */
  datatype Reply = Reply(content: string) | ServiceError(message: string)

  datatype Failure = MissingSections | GenerationFailed(message: string)

  /** The end of a run: the diagram text written to the output file, or a failure
      reported on standard error. */
  datatype Outcome = Written(diagram: string) | Failed(failure: Failure)
  {
    /** The process exit status: 0 after writing, 1 after any handled failure. */
    function ExitCode(): int
    {
      if Written? then 0 else 1
    }
  }

  /** `[dataModel, flows].filter(Boolean).join("\n\n")`: the non-empty sections, data
      model first, separated by a blank line; "" exactly when both are "". */
  function CombineSections(dataModel: string, flows: string): (r: string)
    ensures r == "" <==> dataModel == "" && flows == ""
    ensures dataModel != "" && flows != "" ==> r == dataModel + ParagraphBreak + flows
    ensures dataModel == "" ==> r == flows
    ensures flows == "" ==> r == dataModel
  {
    var parts := [dataModel, flows];
    assert parts[1..] == [flows] && parts[1..][1..] == [];
    assert FilterNonEmpty(parts[1..]) == if flows == "" then [] else [flows];
    var kept := FilterNonEmpty(parts);
    assert dataModel != "" && flows != "" ==> kept == parts;
    assert Join(parts[1..], ParagraphBreak) == flows;
    Join(kept, ParagraphBreak)
  }

  /** The text the driver would hand to the generator: "" exactly when neither
      heading is in the document. */
  function CombinedSections(markdown: string, ws: char -> bool): (r: string)
    ensures r == "" <==> !HasHeading(Split(markdown, '\n'), DataModelTitle, ws)
                         && !HasHeading(Split(markdown, '\n'), FlowsTitle, ws)
  {
    CombineSections(ExtractSection(markdown, DataModelTitle, ws), ExtractSection(markdown, FlowsTitle, ws))
  }

  /** One run on a document: fail with MissingSections, without consulting the
      generator, exactly when neither heading is present; otherwise the generator's
      reply trimmed, or its error. */
  function Run(markdown: string, ws: char -> bool, generate: string -> Reply): (o: Outcome)
    ensures o == Failed(MissingSections)
            <==> !HasHeading(Split(markdown, '\n'), DataModelTitle, ws)
                 && !HasHeading(Split(markdown, '\n'), FlowsTitle, ws)
    ensures o.Written? ==> generate(CombinedSections(markdown, ws)).Reply?
                           && o.diagram == Trim(generate(CombinedSections(markdown, ws)).content, ws)
    ensures o.Failed? && o.failure.GenerationFailed? ==>
              generate(CombinedSections(markdown, ws)) == ServiceError(o.failure.message)
  {
    var combined := CombinedSections(markdown, ws);
    if combined == "" then Failed(MissingSections)
    else
      match generate(combined)
      case Reply(content) => Written(Trim(content, ws))
      case ServiceError(message) => Failed(GenerationFailed(message))
  }

  /** When both sections are missing the generator is never consulted: any two
      generators give the same failed run. */
  lemma MissingSectionsSkipsGeneration(markdown: string, ws: char -> bool,
                                       generate: string -> Reply, other: string -> Reply)
    requires !HasHeading(Split(markdown, '\n'), DataModelTitle, ws)
    requires !HasHeading(Split(markdown, '\n'), FlowsTitle, ws)
    ensures Run(markdown, ws, generate) == Run(markdown, ws, other) == Failed(MissingSections)
    ensures Run(markdown, ws, generate).ExitCode() == 1
  {
  }

  /** Whatever reaches the generator starts with the data-model section and ends with
      the flows section (either may be ""), and is made of nothing but those two
      pieces of the document and, when both are present, the blank line between them. */
  lemma GeneratorInputIsTheSections(markdown: string, ws: char -> bool)
    ensures var dataModel := ExtractSection(markdown, DataModelTitle, ws);
            var flows := ExtractSection(markdown, FlowsTitle, ws);
            var combined := CombinedSections(markdown, ws);
            combined in {dataModel + ParagraphBreak + flows, dataModel, flows}
            && dataModel <= combined
            && combined[|combined| - |flows|..] == flows
            && (exists i, j :: 0 <= i <= j <= |markdown| && markdown[i..j] == dataModel)
            && (exists i, j :: 0 <= i <= j <= |markdown| && markdown[i..j] == flows)
  {
    CombineKeepsOrder(ExtractSection(markdown, DataModelTitle, ws), ExtractSection(markdown, FlowsTitle, ws));
    SectionIsSubstring(markdown, DataModelTitle, ws);
    SectionIsSubstring(markdown, FlowsTitle, ws);
  }

  /** The combination starts with the data-model text and ends with the flows text. */
  lemma CombineKeepsOrder(dataModel: string, flows: string)
    ensures var r := CombineSections(dataModel, flows);
            |flows| <= |r| && dataModel <= r && r[|r| - |flows|..] == flows
  {
  }
}
