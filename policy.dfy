/** The stored news/policy record shared by the crawler, the filter and the
    quiz endpoint (the `Policy` interface of api/lib/supabase.ts). */
module PolicyModel {
  import opened Wrappers

  /** Where a record was scraped from. */
  datatype Source = ShopNews | Mss | Naver

  /** The tag the database stores for a source. */
  function SourceName(s: Source): string
  {
    match s
    case ShopNews => "shopnews"
    case Mss => "mss"
    case Naver => "naver"
  }

  /** A scraped record. `publishedAt` is a calendar day number (days since
      1970-01-01); it is `None` when the stored date is absent, empty or not
      a date. The database's own `id` and `created_at` play no part here. */
  datatype Policy = Policy(
    title: string,
    source: Source,
    category: Option<string>,
    summary: Option<string>,
    url: string,
    publishedAt: Option<int>)
}
