/** The mutable text the review methods edit in place, seen as its rows. */
module Ropes {

  class Rope<T> {
    var rows: seq<T>

    constructor (rows: seq<T>)
      ensures this.rows == rows
    {
      this.rows := rows;
    }

    /** Replaces a range of rows. */
    method Replace(start: int, end: int, replacement: seq<T>)
      requires 0 <= start <= end <= |rows|
      modifies this
      ensures rows == old(rows[..start]) + replacement + old(rows[end..])
    {
      rows := rows[..start] + replacement + rows[end..];
    }
  }
}
