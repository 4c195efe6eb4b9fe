/** The book card record of types.ts, and the JSON object a reply of that
    declared shape decodes to. */
module Types {
  import opened Json

  /** The `BookCardData` interface. Nothing checks this shape at run time:
      what the service returns is whatever `JSON.parse` produced. */
  datatype BookCardData = BookCardData(
    title: string,
    author: string,
    summary: string,
    takeaways: seq<string>,
    quote: string,
    themeColor: string,
    detailedAnalysis: seq<string>)

  function StrArray(xs: seq<string>): (r: JsonValue)
    ensures r.Arr? && |r.items| == |xs|
    ensures forall i :: 0 <= i < |xs| ==> r.items[i] == Str(xs[i])
  {
    Arr(seq(|xs|, i requires 0 <= i < |xs| => Str(xs[i])))
  }

  /** The object `JSON.parse` returns for a reply that has exactly the
      declared shape. */
  function ToJson(c: BookCardData): (r: JsonValue)
  {
    Obj(map[
      "title" := Str(c.title),
      "author" := Str(c.author),
      "summary" := Str(c.summary),
      "takeaways" := StrArray(c.takeaways),
      "quote" := Str(c.quote),
      "themeColor" := Str(c.themeColor),
      "detailedAnalysis" := StrArray(c.detailedAnalysis)])
  }
}
