/** The optional-value and result types shared by the URL utilities and the AJP reader. */
module Wrappers {

  datatype Option<+T> = None | Some(value: T)

  /** The outcome of an operation that either yields a value or reports malformed input. */
  datatype Result<+T> = Ok(value: T) | Malformed
}

/** Octets, as the unsigned value of a Java `byte`. */
module Bytes {

  type byte = x: int | 0 <= x < 256
}

/** Characters as the server compares them. */
module Chars {

  /** ASCII lower-casing: `A`-`Z` become `a`-`z`, every other character is left alone. */
  function LowerAscii(c: char): (d: char)
    ensures 'A' <= c <= 'Z' ==> 'a' <= d <= 'z' && d as int - c as int == 32
    ensures !('A' <= c <= 'Z') ==> d == c
  {
    if 'A' <= c <= 'Z' then (c as int + 32) as char else c
  }
}
