/** The records the scraper writes to the document store and the retriever
    and recommender read back. */
module Documents {
  import opened Wrappers

  /** One chunk record of the document store, a JSON object with the keys
      `id`, `url`, `title` and `text`; a key may be absent from a record read
      back from disk, so every field is optional. */
  datatype Doc = Doc(id: Option<string>, url: Option<string>, title: Option<string>, text: Option<string>)

  /** Python's `KeyError` raised by `d[key]` on a record lacking `key`. */
  datatype Error = KeyError(key: string)
}
