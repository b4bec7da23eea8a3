/** The contents of a file. */
module Bytes {
  type Content = seq<bv8>
}
