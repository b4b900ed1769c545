/** Values that stand for Python's "returned a value" and "raised". */
module Outcomes {

  datatype Option<+T> = None | Some(value: T)

  /** The result of a library call that either returns a value or raises. */
  datatype Result<+T> = Ok(value: T) | Raised
}

/** What the filesystem answers about one path, as `exists()`, `is_file()` and
    `is_dir()` see it. */
module FileSystem {

  datatype FsKind = Missing | RegularFile | Directory | OtherKind

  predicate Exists(k: FsKind) { k != Missing }
  predicate IsFile(k: FsKind) { k == RegularFile }
  predicate IsDir(k: FsKind) { k == Directory }
}
