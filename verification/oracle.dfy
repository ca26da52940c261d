/** The agent's collaborators, which the model receives as parameters: the
    language-model client, `json.loads` and `json.dumps`. */
module Oracle {
  import opened Wrappers

  /** A parsed JSON value. Numbers are kept only as far as Python's
      truthiness sees them: zero or not. */
  datatype Json =
    | JNull
    | JBool(b: bool)
    | JNumber(nonzero: bool)
    | JString(s: string)
    | JArray(items: seq<Json>)
    | JObject(fields: map<string, Json>)

  /** A JSON object, the only thing `json.loads` can return for text that
      begins with `{` and ends with `}` */
  type JsonObject = map<string, Json>

  /** What a prompt carries. The fixed wording of each prompt is not
      modelled; each constructor stands for one prompt template filled with
      these fields. */
  datatype Prompt =
    | SummaryPrompt(context: string)
    | PlanPrompt(target: string, floor: string, ceiling: string, log: string, transcript: string)

  /** An `ExpertAgent`: whether the language model may be used, and its
      collaborators. `generate` yields `None` where `generate_content` (or
      reading `.text`) raises; `loads` yields `None` where `json.loads`
      raises. */
  datatype Agent = Agent(
    llmAvailable: bool,
    generate: Prompt -> Option<string>,
    loads: string -> Option<JsonObject>,
    dumps: map<string, string> -> string)
}
