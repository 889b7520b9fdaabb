/** The records the generation service returns: a generated post and its SEO metadata. */
module Blog {
  import opened Wrappers

  /** `SeoMeta`: every field may be absent. */
  datatype SeoMeta = SeoMeta(title: Option<string>, description: Option<string>, tags: Option<seq<string>>)

  /** `BlogPost`, with its wire names `created_at` and `final_post`; `seo` may be missing from the payload. */
  datatype BlogPost = BlogPost(id: string, topic: string, createdAt: string, seo: Option<SeoMeta>, finalPost: string)
}
