/**
 * The article record (kp_crawler/items.py). A scrapy item behaves like a
 * dictionary whose keys are the declared fields; a field that was never
 * assigned is absent, so every field is a `Slot`. The values are those the
 * spider and the pipelines store: `str`, `str | None` or `list[str]`.
 */
module Items {
  import opened Wrappers

  /** One declared field of an item: never assigned, or assigned a value. */
  datatype Slot<+T> = Unset | Set(value: T)

  /** The contents of an item, as `dict(item)` copies them. */
  datatype ItemDict = ItemDict(
    title: Slot<string>,
    description: Slot<Option<string>>,
    article_text: Slot<string>,
    publication_datetime: Slot<Option<string>>,
    keywords: Slot<seq<string>>,
    authors: Slot<seq<string>>,
    source_url: Slot<string>,
    header_photo_url: Slot<Option<string>>,
    header_photo_base64: Slot<string>)

  /** `KpNewsItem()`: no field assigned yet. */
  const EmptyItem := ItemDict(Unset, Unset, Unset, Unset, Unset, Unset, Unset, Unset, Unset)

  /** A `KpNewsItem`, updated in place by the spider and the photo pipeline. */
  class NewsItem {
    var title: Slot<string>
    var description: Slot<Option<string>>
    var article_text: Slot<string>
    var publication_datetime: Slot<Option<string>>
    var keywords: Slot<seq<string>>
    var authors: Slot<seq<string>>
    var source_url: Slot<string>
    var header_photo_url: Slot<Option<string>>
    var header_photo_base64: Slot<string>

    /** The item's current contents. */
    function Value(): ItemDict
      reads this
    {
      ItemDict(title, description, article_text, publication_datetime, keywords, authors,
               source_url, header_photo_url, header_photo_base64)
    }

    constructor ()
      ensures Value() == EmptyItem
    {
      title, description, article_text, publication_datetime := Unset, Unset, Unset, Unset;
      keywords, authors, source_url := Unset, Unset, Unset;
      header_photo_url, header_photo_base64 := Unset, Unset;
    }
  }
}
