/** The usual optional-value datatype: `None` stands for the `NULL` the C
    code and the `null` the Java code return on failure. */
module Wrappers {

  datatype Option<T> = None | Some(value: T)
}

/** The file system both halves of the system share: the contents of each
    existing file, by path. */
module Fichiers {

  type Disque = map<string, string>
}
