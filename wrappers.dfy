/** The optional result shared by the cache and the allocator: `None` where
    the kernel would panic or has nothing to hand out. */
module Wrappers {
  datatype Option<T> = None | Some(value: T)
}
