/** The record types of the dashboard: a parsed feed item, the prompt language and the API key configuration. */
module News {

  /** A news item as the feed parser produces it; `link` identifies the item. */
  datatype NewsItem = NewsItem(
    title: string,
    link: string,
    pubDate: string,
    creator: string,
    category: string,
    description: string)

  /** The two prompt languages, `'en'` and `'fr'`. */
  datatype Language = En | Fr

  /** The user's API key and when it was last saved. */
  datatype ApiKeyConfig = ApiKeyConfig(key: string, lastUpdated: string)
}
