/** The host's view of open files, as far as the plugin reads it: each open
    document may carry the connection it was locked with, and may carry a
    database, which may carry the connection it was opened from. A reference
    the host leaves null is `None` here. */
module Connections {

  datatype Option<+T> = None | Some(value: T)

  /** A connection descriptor: the file path plus the host's other connection
      parameters, which the plugin carries along without reading them. */
  datatype IoConnection = IoConnection(path: string, userName: string)

  datatype Database = Database(ioc: Option<IoConnection>)

  datatype Document = Document(lockedIoc: Option<IoConnection>, database: Option<Database>)

  /** The document was locked and remembers a connection with a non-empty path. */
  predicate HasUsableLockedIoc(d: Document) {
    d.lockedIoc.Some? && |d.lockedIoc.value.path| > 0
  }

  /** The document's database is present and was opened from a connection
      with a non-empty path. */
  predicate HasUsableDatabaseIoc(d: Document) {
    d.database.Some? && d.database.value.ioc.Some? && |d.database.value.ioc.value.path| > 0
  }

  /** The path a document stands for: the locked connection's path when that
      is usable, else the database connection's path when that is usable. */
  function EffectivePath(d: Document): (r: Option<string>)
    ensures r.Some? <==> HasUsableLockedIoc(d) || HasUsableDatabaseIoc(d)
    ensures r.Some? ==> |r.value| > 0
    ensures HasUsableLockedIoc(d) ==> r == Some(d.lockedIoc.value.path)
    ensures !HasUsableLockedIoc(d) && HasUsableDatabaseIoc(d) ==>
      r == Some(d.database.value.ioc.value.path)
  {
    if HasUsableLockedIoc(d) then Some(d.lockedIoc.value.path)
    else if HasUsableDatabaseIoc(d) then Some(d.database.value.ioc.value.path)
    else None
  }
}
