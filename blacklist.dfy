/**
 * The content blacklist as the rest of the tool sees it: a classification
 * and a check from an entry's bytes to an optional classification. How the
 * check decides (hashing and a lookup table) is not part of this model.
 */
module Blacklist {
  import opened Wrappers
  import opened Bytes

  datatype BlacklistReason = Css | Tf2 | Csgo | Custom(name: string)

  /** `Blacklist::check`: the reason an entry's bytes are blacklisted, if any. */
  type Check = seq<byte> -> Option<BlacklistReason>
}
