/**
 * The storage contract every cell-store backend implements (ReadCell,
 * WriteCell, DeleteCell, ForEachInRow, Close) and its distinguished
 * not-found error. The contract is stated over the backend's abstract state:
 * the map from key to persisted cell. A backend is not reused after Close,
 * which the classes model as a `closed` flag every other operation requires
 * to be false.
 */
module CellStore {
  import opened Wrappers

  /** Returned by ReadCell for a key that has no persisted cell. */
  datatype CellNotFoundError = CellNotFoundError(key: string, reason: string)

  /**
   * What the storage operations and visitors may fail with: the not-found
   * kind, told apart by its constructor, or any other failure (a medium
   * error, a visitor's own error), carried verbatim.
   */
  datatype Error = NotFound(cause: CellNotFoundError) | Failure(message: string)

  function NewCellNotFoundError(key: string, reason: string): (e: CellNotFoundError)
    ensures e.key == key && e.reason == reason
  {
    CellNotFoundError(key, reason)
  }

  /** `%q` of `s`, without Go's escaping of quotes, backslashes and unprintable characters. */
  function Quote(s: string): (q: string)
    ensures |q| == |s| + 2 && q[1..|q| - 1] == s
  {
    "\"" + s + "\""
  }

  /** `Error()`: "Cell <quoted key> not found. <reason>". */
  function Message(e: CellNotFoundError): (msg: string)
    ensures |msg| == |e.key| + |e.reason| + 19
    ensures msg[..5] == "Cell "
    ensures msg[6..6 + |e.key|] == e.key
    ensures msg[|msg| - |e.reason|..] == e.reason
  {
    "Cell " + Quote(e.key) + " not found. " + e.reason
  }

  /** Two not-found errors with the same reason have the same message only when they name the same key. */
  lemma MessageNamesKey(e1: CellNotFoundError, e2: CellNotFoundError)
    requires e1.reason == e2.reason && Message(e1) == Message(e2)
    ensures e1 == e2
  {
    assert |e1.key| == |e2.key|;
    assert e1.key == Message(e1)[6..6 + |e1.key|];
  }

  /**
   * ReadCell's promise: a persisted key yields its cell; any other key
   * yields the not-found kind naming that key, never a generic failure.
   */
  ghost predicate ReadObeys<C>(persisted: map<string, C>, key: string, r: Result<C, Error>) {
    if key in persisted then r == Ok(persisted[key])
    else r.Err? && r.error.NotFound? && r.error.cause.key == key
  }

  /** WriteCell's promise: the cell is retrievable under its own key afterwards; nothing else changes. */
  ghost predicate WriteObeys<C>(before: map<string, C>, after: map<string, C>, key: string, c: C) {
    after == before[key := c]
  }

  /** DeleteCell's promise: the key has no persisted cell afterwards; nothing else changes. */
  ghost predicate DeleteObeys<C>(before: map<string, C>, after: map<string, C>, key: string) {
    after == before - {key}
  }

  /** A write followed by a read of the written key returns the written cell. */
  lemma WriteThenRead<C>(before: map<string, C>, after: map<string, C>, key: string, c: C, r: Result<C, Error>)
    requires WriteObeys(before, after, key, c) && ReadObeys(after, key, r)
    ensures r == Ok(c)
  {
  }

  /** Writing the same cell twice leaves what writing it once leaves. */
  lemma WriteTwice<C>(s0: map<string, C>, s1: map<string, C>, s2: map<string, C>, key: string, c: C)
    requires WriteObeys(s0, s1, key, c) && WriteObeys(s1, s2, key, c)
    ensures s2 == s1
  {
  }

  /** A deleted key reads as not found; every other key reads as before. */
  lemma DeleteThenRead<C>(before: map<string, C>, after: map<string, C>, key: string, k: string,
                          r0: Result<C, Error>, r1: Result<C, Error>)
    requires DeleteObeys(before, after, key) && ReadObeys(before, k, r0) && ReadObeys(after, k, r1)
    ensures k == key ==> r1.Err? && r1.error.NotFound?
    ensures k != key && r0.Ok? ==> r1 == r0
  {
  }
}
