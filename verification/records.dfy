/** The normalized records the crawlers produce and the cache serves. */
module Records {

  /** One unit of article body, in reading order: `{"type": "text" | "image", "value": ...}`. */
  datatype Block = Text(value: string) | Image(value: string)

  /** A normalized article as the crawlers and the cache store it. */
  datatype Article = Article(
    id: string,
    title: string,
    url: string,
    date: string,
    source: string,
    summary: string,
    category: string,
    content: seq<Block>)

  /** The constant site label written into `source`. */
  const BlogSource := "Huawei Developer Blog"

  /** The constant label written into `category` (and, by the developer-blog crawler, into `source`). */
  const HuaweiDeveloper := "Huawei Developer"
}
