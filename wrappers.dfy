/** Optional values, for lookups that may find nothing and operations the
    source lets fail (an `.at` that throws, a `stoul` that cannot parse). */
module Wrappers {

  datatype Option<+T> = None | Some(value: T)
}
