/** The stored record and small shared datatypes. */
module Entries {
  datatype Option<+T> = None | Some(value: T)

  datatype Entry = Entry(content: string, boundIdentity: string, sourceClass: string,
                         flags: seq<string>, quarantined: bool)

  const PRIMARY := "primary"
}
