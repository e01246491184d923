module Integers {

  function Abs(n: int): nat {
    if n < 0 then -n else n
  }
}
