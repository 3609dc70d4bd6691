/** The screenshot record of shared/schema.ts, as the in-memory store sees it. */
module Schema {

  datatype Option<+T> = None | Some(value: T)

  /** The value of `new Date()` at creation; the store only copies it. */
  type Timestamp = int

  /** What `createScreenshot` receives: `InsertScreenshot & { aiTags: string[] }`,
      the table's columns without `id` and `uploadedAt`, plus the AI tags.
      `None` stands for a description that is `null` or missing. */
  datatype NewScreenshot = NewScreenshot(
    title: string,
    imagePath: string,
    description: Option<string>,
    app: string,
    genre: string,
    screenTask: string,
    uiElements: seq<string>,
    tags: seq<string>,
    aiTags: seq<string>)

  /** A stored record: the input's fields with `id` and `uploadedAt` added. */
  datatype Screenshot = Screenshot(
    id: int,
    title: string,
    imagePath: string,
    description: Option<string>,
    app: string,
    genre: string,
    screenTask: string,
    uiElements: seq<string>,
    tags: seq<string>,
    aiTags: seq<string>,
    uploadedAt: Timestamp)

  /** JavaScript truthiness of a `string | null | undefined`: present and not empty. */
  predicate Truthy(o: Option<string>)
  {
    o.Some? && o.value != ""
  }
}
