/** The multimodal input of one generation call: a text block holding the
    framing, the search context and the user's question, followed by the
    reference to the uploaded catalog. Only the structure of the text block is
    modelled; its framing and instruction wording are stand-ins. */
module Prompt {

  /** The opaque handle the upload returned for the catalog. */
  datatype FileRef = FileRef(id: string)

  /** One element of the input list given to the model. */
  datatype Part = TextPart(text: string) | FilePart(file: FileRef)

  /** A generation call: the selected model name and the input list. */
  datatype Request = Request(model: string, parts: seq<Part>)

  /** Role framing and the heading of the internet context. */
  const Framing: string := "[expert framing: analyse the attached PDF, text and images]\nINTERNET CONTEXT:\n"
  /** Heading of the user's question. */
  const QuestionHeading: string := "\nUSER QUESTION:\n"
  /** Closing instructions (look at the product images, judge the design). */
  const Instructions: string := "\nINSTRUCTIONS: [look at the product images and comment on their design]\n"

  /** The text block: framing, context, question heading, question,
      instructions. */
  function PromptText(context: string, question: string): string
  {
    Framing + context + QuestionHeading + question + Instructions
  }

  /** The input list: the text block, then the stored file reference. */
  function Compose(model: string, file: FileRef, context: string, question: string): Request
  {
    Request(model, [TextPart(PromptText(context, question)), FilePart(file)])
  }

  /** Where the context starts in the text block. */
  const ContextStart: nat := |Framing|

  /** Where the question starts in the text block. */
  function QuestionStart(context: string): nat
  {
    |Framing| + |context| + |QuestionHeading|
  }

  /** The request has exactly two parts, the text block and then the file
      reference; the context and the verbatim question can be read back from
      the text block, the context first. */
  lemma ComposeLayout(model: string, file: FileRef, context: string, question: string)
    ensures var r := Compose(model, file, context, question);
      && r.model == model
      && |r.parts| == 2
      && r.parts[0].TextPart?
      && r.parts[1] == FilePart(file)
      && ContextStart + |context| < QuestionStart(context)
      && QuestionStart(context) + |question| <= |r.parts[0].text|
      && r.parts[0].text[ContextStart..ContextStart + |context|] == context
      && r.parts[0].text[QuestionStart(context)..QuestionStart(context) + |question|] == question
  {
  }
}
