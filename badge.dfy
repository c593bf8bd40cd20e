/**
 * What the badge post type stores: the post record the hooks receive and the
 * post-meta keys the schema reads and writes.
 */
module Badge {

  /** The post type name the schema registers. */
  const BadgeType: string := "badge"

  const VersionKey: string := "wpbadger-badge-version"
  const DescriptionKey: string := "wpbadger-badge-description"
  const ValidKey: string := "wpbadger-badge-valid"

  /**
   * The parts of a WordPress post the schema looks at. `thumbnailId` is what
   * `get_post_thumbnail_id` returns for the post (0 when it has none).
   */
  datatype Post = Post(postType: string, status: string, content: string, thumbnailId: int)

  /** `get_post_meta($id, $key, true)`: the stored value, or "" when the key is absent. */
  function Get<K>(m: map<K, string>, k: K): string {
    if k in m then m[k] else ""
  }
}
