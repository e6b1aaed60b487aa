/** Small arithmetic, and numbers as decimal digits. */
module Numbers {
  function Min(a: nat, b: nat): nat {
    if a < b then a else b
  }

  function Max(a: nat, b: nat): nat {
    if a < b then b else a
  }

  predicate IsDigit(c: char) {
    '0' <= c <= '9'
  }

  predicate IsDigits(s: string) {
    forall i :: 0 <= i < |s| ==> IsDigit(s[i])
  }

  /** The number that digits stand for; any other character counts as 0. */
  function NumberOf(s: string): nat {
    if s == "" then 0
    else
      var last := s[|s| - 1];
      10 * NumberOf(s[..|s| - 1]) + if IsDigit(last) then last as nat - '0' as nat else 0
  }
}
