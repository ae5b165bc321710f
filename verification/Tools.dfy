/** What the relay keeps of a tool, as far as searching and retrying look at it. */
module Tools {
  import opened Wrappers
  import opened Json

  /** `properties` are the top-level property keys of the input schema, in order. */
  datatype ToolInfo = ToolInfo(
    name: string, description: Option<string>, properties: seq<string>, annotations: Option<Json>)
}
