/** The browser's key-value storage, seen from one key: what reading the key
    and parsing its JSON produced. The stores never see raw text. */
module Storage {

  datatype Stored<T> =
    | Missing          // the key was never written
    | Unparseable      // the text under the key is not valid JSON
    | Parsed(value: T) // the decoded value

  /** Reading a key: a missing or corrupt value reads as `empty`, never as an error. */
  function Load<T>(s: Stored<T>, empty: T): (r: T)
    ensures s.Parsed? ==> r == s.value
    ensures !s.Parsed? ==> r == empty
  {
    if s.Parsed? then s.value else empty
  }
}
