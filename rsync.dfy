/**
 * rsync URIs. How a relative name is resolved against a base URI is not part
 * of this model: `Join` is any function that may fail, supplied by the caller.
 */
module Rsync {
  import opened Wrappers

  datatype Uri = Uri(text: string)

  /** Resolution of a relative name against a base URI, or None when it fails. */
  type Join = (Uri, string) -> Option<Uri>
}
