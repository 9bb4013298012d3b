/** What several models need about machine words. */
module Words {

  const U32: int := 0x1_0000_0000

  function Max(a: int, b: int): int { if a > b then a else b }

  function Min(a: int, b: int): int { if a < b then a else b }
}
