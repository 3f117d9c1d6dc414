/** The two functions of ECMAScript's `Math` that the jobs and the displayed balances share. */
module Numbers {

  function Min(a: int, b: int): int {
    if a < b then a else b
  }

  function Max(a: int, b: int): int {
    if a < b then b else a
  }
}
