/**
 * The two permission levels a transaction may request on a page.
 * The Java class has a private constructor and exactly two instances,
 * so a closed two-constructor datatype stands for it.
 */
module Permissions {

  datatype Permission = ReadOnly | ReadWrite {

    /** The integer level stored in the instance. */
    function Level(): (level: int)
      ensures 0 <= level <= 1
      ensures level == 0 <==> this == ReadOnly
    {
      match this
      case ReadOnly => 0
      case ReadWrite => 1
    }

    /** `toString`: the name of the instance's level, never "UNKNOWN". */
    function ToString(): (s: string)
      ensures s == "READ_ONLY" <==> this == ReadOnly
      ensures s == "READ_WRITE" <==> this == ReadWrite
      ensures s != "UNKNOWN"
    {
      LevelName(Level())
    }
  }

  /** The if-chain of `toString` over an arbitrary level. */
  function LevelName(level: int): (s: string)
    ensures s == "UNKNOWN" <==> level != 0 && level != 1
  {
    if level == 0 then "READ_ONLY"
    else if level == 1 then "READ_WRITE"
    else "UNKNOWN"
  }

  /** Distinct permissions have distinct levels and distinct names. */
  lemma {:induction false} LevelAndNameInjective(p: Permission, q: Permission)
    requires p != q
    ensures p.Level() != q.Level()
    ensures p.ToString() != q.ToString()
  {
    assert p.ToString()[6] != q.ToString()[6];
  }
}
