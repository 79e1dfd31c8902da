/** Option, error kinds and result types shared by every layer of the cache. */
module Wrappers {

  /** An optional value; `None` also stands for Python's `None` reference. */
  datatype Option<+T> = None | Some(value: T)

  /** The ways an operation of the cache can fail.
      - StorageFull: `StorageFullException`, raised by a storage that is at capacity;
      - NotFound: `KeyError`, raised on a lookup or removal of an absent key;
      - PolicyEmpty: the `AttributeError` raised when the eviction policy is asked for
        a victim while it tracks no key (its tail is `None`);
      - NoLevel: the `AttributeError` raised when a multilevel cache without a
        front level is read or written. */
  datatype Error = StorageFull | NotFound | PolicyEmpty | NoLevel

  /** A value or the error that replaced it. */
  datatype Result<+T> = Ok(value: T) | Err(error: Error)

  /** Success or the error that was raised, for operations that return nothing. */
  datatype Outcome = Done | Fail(error: Error)
}
